/** The CMCE call slots and the state machine of one call. */
module CallFsm {
  import opened Bits

  datatype PduType = Setup | CallProceeding | Connect | TxDemand | TxGranted | Release | Other

  datatype CallState = Idle | SetupPending | Proceeding | Connected | Granted | Releasing

  /** One slot.  log is history: the PDUs applied since the slot was allocated. */
  datatype Slot = Slot(inUse: bool, id: nat, state: CallState, peer: nat, endpoint: int, log: seq<PduType>)

  datatype Stats = Stats(setupCount: nat, connectCount: nat, txGrantCount: nat, releaseCount: nat, fsmDrops: nat)

  const MAX_CALLS: nat := 8

  function FreeSlot(s: Slot): Slot {
    s.(inUse := false, state := Idle, id := 0, log := [])
  }

  /** The state after one PDU, for a slot that stays in use. */
  function Next(s: CallState, t: PduType): CallState {
    match t
    case Setup => SetupPending
    case CallProceeding => if s == SetupPending then Proceeding else s
    case Connect => if s == Proceeding || s == SetupPending then Connected else s
    case TxDemand => if s == Connected then Granted else s
    case TxGranted => if s == Connected then Granted else s
    case Release => if s == Idle then s else Releasing
    case Other => s
  }

  /** Whether the PDU is counted as out of place; a repeated uplink Setup is, a downlink one is not. */
  predicate Dropped(s: CallState, t: PduType, uplink: bool) {
    match t
    case Setup => uplink && s != SetupPending
    case CallProceeding => s != SetupPending
    case Connect => s != Proceeding && s != SetupPending
    case TxDemand => s != Connected
    case TxGranted => s != Connected && s != Granted
    case Release => s == Idle
    case Other => true
  }

  function Count(c: Stats, s: CallState, t: PduType, uplink: bool): Stats {
    var d := Dropped(s, t, uplink);
    Stats(c.setupCount + Bit(t == Setup), c.connectCount + Bit(t == Connect && !d),
          c.txGrantCount + Bit((t == TxDemand || t == TxGranted) && !d),
          c.releaseCount + Bit(t == Release && !d), c.fsmDrops + Bit(d))
  }

  /** cmce_fsm_apply on a slot. */
  function Fed(s: Slot, t: PduType): Slot {
    if !s.inUse then s
    else if t == Release && s.state == Releasing then FreeSlot(s)
    else s.(state := Next(s.state, t), log := s.log + [t])
  }

  // ----- What is counted as out of place -----

  /** For a call in use: a Setup is out of place when the peer sends it and the call was past
      set-up; a Release never; any other PDU exactly when it leaves the state as it was, but
      that a grant may be repeated. */
  lemma DroppedIff(s: CallState, t: PduType, uplink: bool)
    requires s != Idle
    ensures Dropped(s, t, uplink) <==>
      if t == Setup then uplink && Next(s, t) != s
      else if t == Release then false
      else Next(s, t) == s && !(t == TxGranted && s == Granted)
  {
  }

  /** Every PDU raises the counter of its kind or the drops, never both, except that a Setup is
      always counted as one; a PDU without a counter can only be a drop. */
  lemma CountedOnce(c: Stats, s: CallState, t: PduType, uplink: bool)
    ensures var d, e := Bit(Dropped(s, t, uplink)), Count(c, s, t, uplink);
      && e.fsmDrops == c.fsmDrops + d
      && e.setupCount == c.setupCount + (if t == Setup then 1 else 0)
      && e.connectCount == c.connectCount + (if t == Connect then 1 - d else 0)
      && e.txGrantCount == c.txGrantCount + (if t == TxDemand || t == TxGranted then 1 - d else 0)
      && e.releaseCount == c.releaseCount + (if t == Release then 1 - d else 0)
  {
  }

  // ----- What a call's history says about its state -----

  function StateAfter(log: seq<PduType>): CallState {
    if log == [] then SetupPending else Next(StateAfter(log[..|log| - 1]), log[|log| - 1])
  }

  /** No Release that a later Setup has not undone. */
  ghost predicate Live(log: seq<PduType>) {
    forall k :: 0 <= k < |log| && log[k] == Release ==> exists j :: k < j < |log| && log[j] == Setup
  }

  /** A Connect on a live call, with no Setup and no Release since. */
  ghost predicate LinkedAt(log: seq<PduType>, i: int) {
    0 <= i < |log| && log[i] == Connect && Live(log[..i])
    && forall k :: i < k < |log| ==> log[k] != Setup && log[k] != Release
  }

  ghost predicate Linked(log: seq<PduType>) {
    exists i :: LinkedAt(log, i)
  }

  lemma LivePush(log: seq<PduType>, t: PduType)
    ensures Live(log + [t]) <==> t == Setup || (t != Release && Live(log))
  {
    var g := log + [t];
    if t == Setup {
      forall k | 0 <= k < |g| && g[k] == Release ensures exists j :: k < j < |g| && g[j] == Setup {
        assert g[|log|] == Setup;
      }
    } else if t == Release {
      assert g[|log|] == Release;
    } else {
      if Live(g) {
        forall k | 0 <= k < |log| && log[k] == Release ensures exists j :: k < j < |log| && log[j] == Setup {
          assert g[k] == Release;
          var j :| k < j < |g| && g[j] == Setup;
          assert log[j] == Setup;
        }
      }
      if Live(log) {
        forall k | 0 <= k < |g| && g[k] == Release ensures exists j :: k < j < |g| && g[j] == Setup {
          assert log[k] == Release;
          var j :| k < j < |log| && log[j] == Setup;
          assert g[j] == Setup;
        }
      }
    }
  }

  lemma LinkedPush(log: seq<PduType>, t: PduType)
    ensures Linked(log + [t]) <==> t != Setup && t != Release && (Linked(log) || (t == Connect && Live(log)))
  {
    var g := log + [t];
    if Linked(g) {
      var i :| LinkedAt(g, i);
      assert g[..i] == log[..i];
      if i < |log| {
        assert g[|log|] == t;
        assert LinkedAt(log, i);
      } else {
        assert log[..i] == log;
      }
    }
    if t != Setup && t != Release && Linked(log) {
      var i :| LinkedAt(log, i);
      assert g[..i] == log[..i];
      assert LinkedAt(g, i);
    }
    if t == Connect && Live(log) {
      assert g[..|log|] == log;
      assert LinkedAt(g, |log|);
    }
  }

  /** A linked call that has asked for, or been given, the channel since the Connect. */
  ghost predicate GrantedAt(log: seq<PduType>, i: int, j: int) {
    LinkedAt(log, i) && i < j < |log| && (log[j] == TxDemand || log[j] == TxGranted)
  }

  ghost predicate HasGrant(log: seq<PduType>) {
    exists i, j :: GrantedAt(log, i, j)
  }

  lemma LinkedAtPush(log: seq<PduType>, t: PduType, i: nat)
    requires i < |log|
    ensures LinkedAt(log + [t], i) <==> LinkedAt(log, i) && t != Setup && t != Release
  {
    var g := log + [t];
    assert g[..i] == log[..i];
    assert g[|log|] == t;
    assert forall k :: 0 <= k < |log| ==> g[k] == log[k];
  }

  lemma GrantPush(log: seq<PduType>, t: PduType)
    ensures HasGrant(log + [t]) <==>
      t != Setup && t != Release && (HasGrant(log) || ((t == TxDemand || t == TxGranted) && Linked(log)))
  {
    var g := log + [t];
    if HasGrant(g) {
      var i, j :| GrantedAt(g, i, j);
      LinkedAtPush(log, t, i);
      assert j < |log| ==> GrantedAt(log, i, j);
    }
    if t != Setup && t != Release && HasGrant(log) {
      var i, j :| GrantedAt(log, i, j);
      LinkedAtPush(log, t, i);
      assert GrantedAt(g, i, j);
    }
    if (t == TxDemand || t == TxGranted) && Linked(log) {
      var i :| LinkedAt(log, i);
      LinkedAtPush(log, t, i);
      assert GrantedAt(g, i, |log|);
    }
  }

  /** A CallProceeding with no Setup since. */
  ghost predicate ProceedsAt(log: seq<PduType>, i: int) {
    0 <= i < |log| && log[i] == CallProceeding && forall k :: i < k < |log| ==> log[k] != Setup
  }

  ghost predicate Proceeds(log: seq<PduType>) {
    exists i :: ProceedsAt(log, i)
  }

  lemma ProceedsPush(log: seq<PduType>, t: PduType)
    ensures Proceeds(log + [t]) <==> t != Setup && (Proceeds(log) || t == CallProceeding)
  {
    var g := log + [t];
    if Proceeds(g) {
      var i :| ProceedsAt(g, i);
      if i < |log| {
        assert g[|log|] == t;
        assert forall k :: i < k < |log| ==> g[k] == log[k];
        assert ProceedsAt(log, i);
      }
    }
    if t != Setup && Proceeds(log) {
      var i :| ProceedsAt(log, i);
      assert ProceedsAt(g, i);
    }
    if t == CallProceeding {
      assert ProceedsAt(g, |log|);
    }
  }

  /** The state read off the history without running the machine. */
  ghost function Meaning(log: seq<PduType>): CallState {
    if !Live(log) then Releasing
    else if HasGrant(log) then Granted
    else if Linked(log) then Connected
    else if Proceeds(log) then Proceeding
    else SetupPending
  }

  lemma MeaningOfNothing()
    ensures Meaning([]) == SetupPending
  {
  }

  lemma MeaningStep(log: seq<PduType>, t: PduType)
    ensures Meaning(log + [t]) == Next(Meaning(log), t)
  {
    LivePush(log, t);
    LinkedPush(log, t);
    GrantPush(log, t);
    ProceedsPush(log, t);
    LinkedIsLive(log);
    GrantIsLinked(log);
  }

  lemma {:induction false} LinkedIsLive(log: seq<PduType>)
    ensures Linked(log) ==> Live(log)
    decreases |log|
  {
    if log != [] {
      var front, t := log[..|log| - 1], log[|log| - 1];
      assert log == front + [t];
      LinkedIsLive(front);
      LivePush(front, t);
      LinkedPush(front, t);
    }
  }

  lemma GrantIsLinked(log: seq<PduType>)
    ensures HasGrant(log) ==> Linked(log)
  {
    if HasGrant(log) {
      var i, j :| GrantedAt(log, i, j);
      assert LinkedAt(log, i);
    }
  }

  /** The machine's state is exactly what the history of the call means. */
  lemma {:induction false} StateMeans(log: seq<PduType>)
    ensures StateAfter(log) == Meaning(log) != Idle
    decreases |log|
  {
    if log == [] {
      MeaningOfNothing();
    } else {
      var front, t := log[..|log| - 1], log[|log| - 1];
      StateMeans(front);
      MeaningStep(front, t);
      assert log == front + [t];
    }
  }

  /** A channel is granted only after a Connect since the call's last Setup. */
  lemma GrantNeedsConnect(log: seq<PduType>)
    requires StateAfter(log) == Granted
    ensures exists i :: 0 <= i < |log| && log[i] == Connect && forall k :: i < k < |log| ==> log[k] != Setup
  {
    StateMeans(log);
    GrantIsLinked(log);
    var i :| LinkedAt(log, i);
    assert log[i] == Connect;
  }
}
