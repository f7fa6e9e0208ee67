/** The CMCE entity: the slot array changed in place, proved equal to the table's value. */
module Cmce {
  import opened Errno
  import opened CallFsm
  import opened CallTable

  /** What cmce_pdu_from_body gives. */
  datatype Decoded = Undecodable(rc: int) | Good(u: Upcall)

  /** A downlink PDU handed to the bus. */
  datatype Response = Response(pdu: PduType, id: nat, peer: nat, endpoint: int)

  /** The answer to an uplink PDU, if it has one. */
  function Answer(u: Upcall): seq<Response> {
    match u.pdu
    case Setup => [Response(CallProceeding, u.id, u.peer, u.endpoint)]
    case TxDemand => [Response(TxGranted, u.id, u.peer, u.endpoint)]
    case Release => [Response(Release, u.id, u.peer, u.endpoint)]
    case _ => []
  }

  /** What is sent fits what the call goes through.  Every answer goes back to where its upcall
      came from.  A Setup is answered by the PDU that moves the call, now in set-up, to
      Proceeding; a TxDemand by the one other PDU that grants a connected call; a Release, which
      frees the slot, by one more Release; nothing else is answered. */
  lemma AnswersFitTheCall(s: State, u: Upcall)
    requires TableInv(s.calls) && Handle(s, u).rc == 0
    ensures forall i :: 0 <= i < |Answer(u)| ==>
      Answer(u)[i].id == u.id && Answer(u)[i].peer == u.peer && Answer(u)[i].endpoint == u.endpoint
    ensures |Answer(u)| == if u.pdu == Setup || u.pdu == TxDemand || u.pdu == Release then 1 else 0
    ensures u.pdu == Setup ==>
      var t := Handle(s, u).state.calls; var k := FindFrom(t, u.id, 0);
      k < |t| && t[k].state == SetupPending && Next(t[k].state, Answer(u)[0].pdu) == Proceeding
    ensures u.pdu == TxDemand ==> Answer(u)[0].pdu != TxDemand && Next(Connected, Answer(u)[0].pdu) == Granted
    ensures u.pdu == Release <==> !Known(Handle(s, u).state.calls, u.id)
    ensures u.pdu == Release ==> Next(Connected, Answer(u)[0].pdu) == Releasing
  {
    var k, t := FindFrom(s.calls, u.id, 0), Handle(s, u).state.calls;
    if u.pdu == Release {
      ReleaseFreesTheCall(s, u);
    } else {
      StaysKnown(s, u);
    }
  }

  lemma StaysKnown(s: State, u: Upcall)
    requires TableInv(s.calls) && Handle(s, u).rc == 0 && u.pdu != Release
    ensures var t := Handle(s, u).state.calls; var k := FindFrom(t, u.id, 0);
      k < |t| && (u.pdu == Setup ==> t[k].state == SetupPending)
  {
    HandleKeeps(s, u);
    var t := Handle(s, u).state.calls;
    var k := if FindFrom(s.calls, u.id, 0) < |s.calls| then FindFrom(s.calls, u.id, 0) else FreeFrom(s.calls, 0);
    assert t[k].inUse && t[k].id == u.id;
  }

  class Cmce {
    const calls: array<Slot>
    var stats: Stats
    var pdusRx: nat
    var unknownPduType: nat
    var pdusTx: nat
    var sent: seq<Response>

    ghost function View(): (s: State)
      reads this, calls
    {
      State(calls[..], stats)
    }

    ghost predicate Valid()
      reads this, calls
    {
      calls.Length == MAX_CALLS && TableInv(calls[..])
    }

    constructor ()
      ensures Valid() && fresh(calls) && View() == Empty() && sent == [] && pdusRx == unknownPduType == pdusTx == 0
    {
      calls := new Slot[MAX_CALLS](_ => Slot(false, 0, Idle, 0, 0, []));
      stats, pdusRx, unknownPduType, pdusTx, sent := Stats(0, 0, 0, 0, 0), 0, 0, 0, [];
    }

    /** cmce_call_lookup. */
    method Lookup(id: nat) returns (k: nat)
      ensures k == FindFrom(calls[..], id, 0)
    {
      k := 0;
      while k < calls.Length
        invariant k <= calls.Length && FindFrom(calls[..], id, 0) == FindFrom(calls[..], id, k)
      {
        if calls[k].inUse && calls[k].id == id {
          return;
        }
        k := k + 1;
      }
    }

    /** cmce_call_alloc: calls.Length when refused, a duplicate also counting as a drop. */
    method Alloc(id: nat, peer: nat, endpoint: int) returns (k: nat)
      modifies this`stats, calls
      ensures Known(old(calls[..]), id) ==> k == calls.Length && View() == Drop(old(View()))
      ensures !Known(old(calls[..]), id) ==> k == FreeFrom(old(calls[..]), 0) && stats == old(stats)
      ensures !Known(old(calls[..]), id) ==>
        calls[..] == if k < calls.Length then old(calls[..])[k := NewSlot(id, peer, endpoint)] else old(calls[..])
    {
      var existing := Lookup(id);
      if existing < calls.Length {
        stats := stats.(fsmDrops := stats.fsmDrops + 1);
        return calls.Length;
      }
      k := 0;
      while k < calls.Length
        invariant k <= calls.Length && calls[..] == old(calls[..]) && stats == old(stats)
        invariant FreeFrom(calls[..], 0) == FreeFrom(calls[..], k)
      {
        if !calls[k].inUse {
          calls[k] := NewSlot(id, peer, endpoint);
          return;
        }
        k := k + 1;
      }
    }

    /** cmce_fsm_apply. */
    method FsmApply(k: nat, t: PduType, uplink: bool) returns (state: CallState)
      requires k < calls.Length
      modifies this`stats, calls
      ensures View() == Apply(old(View()), k, t, uplink)
      ensures state == if old(calls[k]).inUse then calls[k].state else Idle
    {
      var c := calls[k];
      if !c.inUse {
        stats := stats.(fsmDrops := stats.fsmDrops + 1);
        return Idle;
      }
      stats := Count(stats, c.state, t, uplink);
      if t == Release && c.state == Releasing {
        calls[k] := FreeSlot(c);
        return Idle;
      }
      calls[k] := c.(state := Next(c.state, t), log := c.log + [t]);
      state := calls[k].state;
    }

    /** cmce_handle_tle_msg; posted tells whether the bus takes the answer. */
    method HandleTleMsg(d: Decoded, posted: bool) returns (rc: int)
      requires Valid()
      modifies this, calls
      ensures Valid() && pdusRx == old(pdusRx) + 1
      ensures d.Undecodable? ==> rc == d.rc && View() == old(View()) && sent == old(sent)
      ensures d.Undecodable? ==> unknownPduType == old(unknownPduType) + 1
      ensures d.Good? ==> Handled(rc, View()) == Handle(old(View()), d.u) && unknownPduType == old(unknownPduType)
      ensures d.Good? ==> sent == old(sent) + if rc == 0 && posted then Answer(d.u) else []
      ensures pdusTx == old(pdusTx) + (|sent| - |old(sent)|)
    {
      pdusRx := pdusRx + 1;
      if d.Undecodable? {
        unknownPduType := unknownPduType + 1;
        return d.rc;
      }
      var u := d.u;
      HandleKeeps(View(), u);
      var k := Lookup(u.id);
      if k == calls.Length {
        if u.pdu != Setup {
          stats := stats.(fsmDrops := stats.fsmDrops + 1);
          return -EPROTO;
        }
        k := Alloc(u.id, u.peer, u.endpoint);
        if k == calls.Length {
          stats := stats.(fsmDrops := stats.fsmDrops + 1);
          return -ENOSPC;
        }
      }
      var _ := FsmApply(k, u.pdu, true);
      if posted {
        sent := sent + Answer(u);
        pdusTx := pdusTx + |Answer(u)|;
      }
      if u.pdu == Release {
        var _ := FsmApply(k, Release, false);
      }
      rc := 0;
    }
  }
}
