/** What one call of dma_recv_frame makes of the bytes held, the bytes in the pipe and the
    answers of poll(2), and when its return value can be trusted. */
module DmaReceive {
  import opened Errno
  import opened Bits
  import opened Frames
  import opened Reassembly

  /** What read(2) does: gives at most k bytes, none also at the end of the pipe or when it
      would block or is interrupted, or fails otherwise. */
  datatype Read = Gives(k: nat) | Fails(errno: ErrorCode)

  /** One round of poll(2): interrupted, failed, hung up with nothing to read, or readable. */
  datatype Poll = Interrupted | Failed(errno: ErrorCode) | HungUp | Ready(read: Read)

  /** Return value, payload, bytes held and in the pipe afterwards, and what was taken. */
  datatype Received = Received(rc: int, out: seq<Byte>, held: seq<Byte>, pipe: seq<Byte>, events: seq<Event>)

  /** One attempt for a caller's buffer of cap bytes; rc is the payload length, or negative. */
  function TakeOne(u: seq<Byte>, pipe: seq<Byte>, cap: nat): Received {
    match Try(u)
    case NeedMore => Received(0, [], u, pipe, [])
    case Took(e, rest) =>
      if !e.Payload? then Received(-EBADMSG, [], rest, pipe, [e])
      else if |e.bytes| > cap then Received(-ENOSPC, [], u, pipe, [])
      else Received(|e.bytes|, e.bytes, rest, pipe, [e])
  }

  /** The attempt ended the call: it took something or refused a frame. */
  predicate Ends(a: Received) {
    a.rc != 0 || a.events != []
  }

  /** How much one read appends. */
  function ReadLength(u: seq<Byte>, pipe: seq<Byte>, k: nat): (n: nat)
    requires |u| <= REASM_CAP
    ensures n <= |pipe| && |u| + n <= REASM_CAP && n <= k
  {
    var free := REASM_CAP - |u|;
    var m := if k < free then k else free;
    if |pipe| < m then |pipe| else m
  }

  /** One round of the poll and read loop: whether it ends the call, and how things stand. */
  datatype Round = Round(ends: bool, result: Received)

  function OneRound(u: seq<Byte>, pipe: seq<Byte>, p: Poll, cap: nat, oneShot: bool): (r: Round)
    requires |u| <= REASM_CAP
    ensures !r.ends ==> |r.result.held| <= REASM_CAP
  {
    match p
    case Interrupted => Round(false, Received(0, [], u, pipe, []))
    case Failed(e) => Round(true, Received(Negative(e), [], u, pipe, []))
    case HungUp => Round(true, Received(0, [], u, pipe, []))
    case Ready(Fails(e)) =>
      if |u| < REASM_CAP then Round(true, Received(Negative(e), [], u, pipe, []))
      else Round(oneShot, Received(0, [], u, pipe, []))
    case Ready(Gives(k)) =>
      var n := ReadLength(u, pipe, k);
      var v, rest := u + pipe[..n], pipe[n..];
      var a := TakeOne(v, rest, cap);
      if n > 0 && Ends(a) then Round(true, a) else Round(oneShot, Received(0, [], v, rest, []))
  }

  /** The poll and read loop; past the end of polls the poll times out. */
  function Rounds(u: seq<Byte>, pipe: seq<Byte>, polls: seq<Poll>, cap: nat, oneShot: bool): Received
    requires |u| <= REASM_CAP
    decreases |polls|
  {
    if polls == [] then Received(0, [], u, pipe, [])
    else
      var r := OneRound(u, pipe, polls[0], cap, oneShot);
      if r.ends then r.result else Rounds(r.result.held, r.result.pipe, polls[1..], cap, oneShot)
  }

  /** dma_recv_frame. */
  function Receive(u: seq<Byte>, pipe: seq<Byte>, polls: seq<Poll>, cap: nat, oneShot: bool): Received
    requires |u| <= REASM_CAP
  {
    var a := TakeOne(u, pipe, cap);
    if Ends(a) then a else Rounds(u, pipe, polls, cap, oneShot)
  }

  // ----- What the return value reports -----

  /** A positive value is exactly a payload with bytes in it, delivered whole; a negative
      one delivers no frame, and takes something only for a bad header; taking something
      and returning 0 happens exactly for an empty frame. */
  ghost predicate Reports(r: Received) {
    && |r.events| <= 1
    && (r.rc > 0 <==> r.events != [] && r.events[0].Payload? && r.events[0].bytes != [])
    && (r.rc > 0 ==> r.rc == |r.out| && r.events == [Payload(r.out)])
    && (r.rc < 0 && r.events != [] <==> r.events != [] && !r.events[0].Payload?)
    && (r.rc < 0 && r.events != [] ==> r.rc == -EBADMSG)
    && (r.rc == 0 && r.events != [] <==> r.events == [Payload([])])
  }

  lemma {:induction false} RoundsReport(u: seq<Byte>, pipe: seq<Byte>, polls: seq<Poll>, cap: nat, oneShot: bool)
    requires |u| <= REASM_CAP
    ensures Reports(Rounds(u, pipe, polls, cap, oneShot))
    decreases |polls|
  {
    if polls != [] {
      OneRoundReports(u, pipe, polls[0], cap, oneShot);
      var r := OneRound(u, pipe, polls[0], cap, oneShot);
      if !r.ends {
        RoundsReport(r.result.held, r.result.pipe, polls[1..], cap, oneShot);
      }
    }
  }

  lemma OneRoundReports(u: seq<Byte>, pipe: seq<Byte>, p: Poll, cap: nat, oneShot: bool)
    requires |u| <= REASM_CAP
    ensures Reports(OneRound(u, pipe, p, cap, oneShot).result)
  {
    if p.Ready? && p.read.Gives? {
      var n := ReadLength(u, pipe, p.read.k);
      TakeOneReports(u + pipe[..n], pipe[n..], cap);
    }
  }

  lemma TakeOneReports(u: seq<Byte>, pipe: seq<Byte>, cap: nat)
    ensures Reports(TakeOne(u, pipe, cap))
  {
  }

  lemma ReceiveReports(u: seq<Byte>, pipe: seq<Byte>, polls: seq<Poll>, cap: nat, oneShot: bool)
    requires |u| <= REASM_CAP
    ensures Reports(Receive(u, pipe, polls, cap, oneShot))
  {
    TakeOneReports(u, pipe, cap);
    RoundsReport(u, pipe, polls, cap, oneShot);
  }

  /** The documented meaning of 0, that no frame was taken, fails on the wire image of an
      empty frame: the call returns just what it returns when nothing arrives. */
  lemma EmptyFrameLooksLikeTimeout(m: U32, cap: nat)
    requires MagicKnown(m)
    ensures var r := Receive([], Wire(Frame(m, [])), [Ready(Gives(8))], cap, false);
      var t := Receive([], [], [], cap, false);
      r.rc == t.rc == 0 && r.out == t.out == [] && r.events == [Payload([])] && t.events == []
  {
    EmptyFrameRound(m, cap);
  }

  lemma EmptyFrameRound(m: U32, cap: nat)
    requires MagicKnown(m)
    ensures OneRound([], Wire(Frame(m, [])), Ready(Gives(8)), cap, false)
         == Round(true, Received(0, [], [], [], [Payload([])]))
  {
    var w := Wire(Frame(m, []));
    TryWire(Frame(m, []), []);
    assert w + [] == w;
    assert [] + w[..8] == w;
  }

  // ----- When 0 means that nothing was taken -----

  /** Whatever a call takes is what the bytes held and coming begin with. */
  lemma {:induction false} RoundsTakeFirst(u: seq<Byte>, pipe: seq<Byte>, polls: seq<Poll>, cap: nat, oneShot: bool)
    requires |u| <= REASM_CAP
    ensures var es := Rounds(u, pipe, polls, cap, oneShot).events;
      es != [] ==> Try(u + pipe).Took? && es == [Try(u + pipe).event]
    decreases |polls|
  {
    if polls != [] {
      OneRoundTakesFirst(u, pipe, polls[0], cap, oneShot);
      var r := OneRound(u, pipe, polls[0], cap, oneShot);
      if !r.ends {
        RoundsTakeFirst(r.result.held, r.result.pipe, polls[1..], cap, oneShot);
      }
    }
  }

  lemma OneRoundTakesFirst(u: seq<Byte>, pipe: seq<Byte>, p: Poll, cap: nat, oneShot: bool)
    requires |u| <= REASM_CAP
    ensures var r := OneRound(u, pipe, p, cap, oneShot);
      && (r.result.events != [] ==> Try(u + pipe).Took? && r.result.events == [Try(u + pipe).event])
      && (!r.ends ==> r.result.held + r.result.pipe == u + pipe)
  {
    if p.Ready? && p.read.Gives? {
      var n := ReadLength(u, pipe, p.read.k);
      assert (u + pipe[..n]) + pipe[n..] == u + pipe;
      TakesFirst(u + pipe[..n], pipe[n..], cap);
    }
  }

  lemma TakesFirst(u: seq<Byte>, pipe: seq<Byte>, cap: nat)
    ensures var es := TakeOne(u, pipe, cap).events;
      es != [] ==> Try(u + pipe).Took? && es == [Try(u + pipe).event]
  {
    if Try(u).Took? {
      TryPrefix(u, pipe);
    }
  }

  /** 0 always means that nothing was taken. */
  ghost predicate ZeroIsTruthful(u: seq<Byte>, pipe: seq<Byte>)
    requires |u| <= REASM_CAP
  {
    forall polls, cap, oneShot :: Receive(u, pipe, polls, cap, oneShot).rc == 0 ==>
      Receive(u, pipe, polls, cap, oneShot).events == []
  }

  predicate EmptyFrameNext(u: seq<Byte>) {
    Try(u).Took? && Try(u).event == Payload([])
  }

  /** It does, for every behaviour of the pipe, exactly when the bytes held and coming do not
      begin with an empty frame. */
  lemma ZeroIsTruthfulIff(u: seq<Byte>, pipe: seq<Byte>)
    requires |u| <= REASM_CAP
    ensures ZeroIsTruthful(u, pipe) <==> !EmptyFrameNext(u + pipe)
  {
    if EmptyFrameNext(u + pipe) {
      EmptyFrameIsTaken(u, pipe);
    } else {
      forall polls, cap, oneShot | Receive(u, pipe, polls, cap, oneShot).rc == 0
        ensures Receive(u, pipe, polls, cap, oneShot).events == []
      {
        ReceiveReports(u, pipe, polls, cap, oneShot);
        TakesFirst(u, pipe, cap);
        RoundsTakeFirst(u, pipe, polls, cap, oneShot);
      }
    }
  }

  lemma EmptyFrameIsTaken(u: seq<Byte>, pipe: seq<Byte>)
    requires |u| <= REASM_CAP && EmptyFrameNext(u + pipe)
    ensures !ZeroIsTruthful(u, pipe)
  {
    FirstIsTaken(u, pipe);
    var r := Receive(u, pipe, AllAtOnce(pipe), 0, false);
    assert r.rc == 0 && r.events == [Payload([])];
  }

  /** One read that gives everything that fits. */
  function AllAtOnce(pipe: seq<Byte>): (polls: seq<Poll>)
    ensures NoneFailed(polls)
  {
    [Ready(Gives(|pipe|))]
  }

  /** It takes what comes first, unless that is a frame too large for the caller. */
  lemma FirstIsTaken(u: seq<Byte>, pipe: seq<Byte>)
    requires |u| <= REASM_CAP && Try(u + pipe).Took?
    requires Try(u + pipe).event.Payload? ==> Try(u + pipe).event.bytes == []
    ensures Receive(u, pipe, AllAtOnce(pipe), 0, false).events == [Try(u + pipe).event]
    ensures Receive(u, pipe, AllAtOnce(pipe), 0, false).rc == (if Try(u + pipe).event.Payload? then 0 else -EBADMSG)
  {
    var n := ReadLength(u, pipe, |pipe|);
    var v, rest := u + pipe[..n], pipe[n..];
    assert v + rest == u + pipe;
    if Try(u).Took? {
      TryPrefix(u, pipe);
    } else {
      EnoughWasRead(u, pipe, v, rest);
      TryPrefix(v, rest);
    }
  }

  /** One read of everything that fits completes an empty frame. */
  lemma EnoughWasRead(u: seq<Byte>, pipe: seq<Byte>, v: seq<Byte>, rest: seq<Byte>)
    requires |u| <= REASM_CAP && v + rest == u + pipe && (rest == [] || |v| >= REASM_CAP) && Try(u + pipe).Took?
    ensures Try(v).Took?
  {
    if rest == [] {
      assert v + [] == v;
    } else {
      FullNeverNeedsMore(v);
    }
  }

  // ----- What -EBADMSG reports -----

  /** No system call fails. */
  predicate NoneFailed(polls: seq<Poll>) {
    forall i :: 0 <= i < |polls| ==> !polls[i].Failed? && !(polls[i].Ready? && polls[i].read.Fails?)
  }

  lemma NeedMoreBefore(u: seq<Byte>, v: seq<Byte>)
    requires Try(u + v).NeedMore?
    ensures Try(u).NeedMore?
  {
    if Try(u).Took? {
      TryPrefix(u, v);
    }
  }

  /** The documented -EBADMSG for a frame cut short by the end of the pipe never comes: as long
      as what is held and coming is no whole event, a call returns 0, takes nothing and loses
      nothing, whatever the polls and reads answer short of failing. */
  lemma CutShortLooksLikeTimeout(u: seq<Byte>, pipe: seq<Byte>, polls: seq<Poll>, cap: nat, oneShot: bool)
    requires |u| <= REASM_CAP && Try(u + pipe).NeedMore? && NoneFailed(polls)
    ensures var r := Receive(u, pipe, polls, cap, oneShot);
      r.rc == 0 && r.out == [] && r.events == [] && r.held + r.pipe == u + pipe
  {
    NeedMoreBefore(u, pipe);
    RoundsCutShort(u, pipe, polls, cap, oneShot);
  }

  lemma {:induction false} RoundsCutShort(u: seq<Byte>, pipe: seq<Byte>, polls: seq<Poll>, cap: nat, oneShot: bool)
    requires |u| <= REASM_CAP && Try(u + pipe).NeedMore? && NoneFailed(polls)
    ensures var r := Rounds(u, pipe, polls, cap, oneShot);
      r.rc == 0 && r.out == [] && r.events == [] && r.held + r.pipe == u + pipe
    decreases |polls|
  {
    if polls != [] {
      RoundCutShort(u, pipe, polls[0], cap, oneShot);
      var r := OneRound(u, pipe, polls[0], cap, oneShot);
      if !r.ends {
        RoundsCutShort(r.result.held, r.result.pipe, polls[1..], cap, oneShot);
      }
    }
  }

  lemma RoundCutShort(u: seq<Byte>, pipe: seq<Byte>, p: Poll, cap: nat, oneShot: bool)
    requires |u| <= REASM_CAP && Try(u + pipe).NeedMore? && !p.Failed? && !(p.Ready? && p.read.Fails?)
    ensures var r := OneRound(u, pipe, p, cap, oneShot).result;
      r.rc == 0 && r.out == [] && r.events == [] && r.held + r.pipe == u + pipe
  {
    if p.Ready? {
      var n := ReadLength(u, pipe, p.read.k);
      assert (u + pipe[..n]) + pipe[n..] == u + pipe;
      NeedMoreBefore(u + pipe[..n], pipe[n..]);
    }
  }

  /** A bad header comes next. */
  predicate BadHeaderNext(u: seq<Byte>) {
    Try(u).Took? && !Try(u).event.Payload?
  }

  ghost predicate CanReportBadMessage(u: seq<Byte>, pipe: seq<Byte>)
    requires |u| <= REASM_CAP
  {
    exists polls, cap, oneShot :: NoneFailed(polls) && Receive(u, pipe, polls, cap, oneShot).rc == -EBADMSG
  }

  /** Short of failing calls, -EBADMSG can come back exactly when a bad header comes next. */
  lemma BadMessageIff(u: seq<Byte>, pipe: seq<Byte>)
    requires |u| <= REASM_CAP
    ensures CanReportBadMessage(u, pipe) <==> BadHeaderNext(u + pipe)
  {
    if BadHeaderNext(u + pipe) {
      FirstIsTaken(u, pipe);
      assert Receive(u, pipe, AllAtOnce(pipe), 0, false).rc == -EBADMSG;
    }
    forall polls, cap, oneShot | NoneFailed(polls) && Receive(u, pipe, polls, cap, oneShot).rc == -EBADMSG
      ensures BadHeaderNext(u + pipe)
    {
      RoundsBadMessage(u, pipe, polls, cap, oneShot);
      TakesFirst(u, pipe, cap);
      RoundsTakeFirst(u, pipe, polls, cap, oneShot);
    }
  }

  /** Then it is the report of a bad header taken. */
  lemma {:induction false} RoundsBadMessage(u: seq<Byte>, pipe: seq<Byte>, polls: seq<Poll>, cap: nat, oneShot: bool)
    requires |u| <= REASM_CAP && NoneFailed(polls)
    ensures var r := Rounds(u, pipe, polls, cap, oneShot);
      r.rc == -EBADMSG ==> r.events != [] && !r.events[0].Payload?
    decreases |polls|
  {
    if polls != [] {
      var r := OneRound(u, pipe, polls[0], cap, oneShot);
      if !r.ends {
        RoundsBadMessage(r.result.held, r.result.pipe, polls[1..], cap, oneShot);
      }
    }
  }

  // ----- Reassembly across short reads -----

  /** How many bytes the reads offer before a failing call or a hang-up. */
  function Offered(polls: seq<Poll>): nat {
    if polls == [] then 0
    else
      match polls[0]
      case Interrupted => Offered(polls[1..])
      case Ready(Gives(k)) => k + Offered(polls[1..])
      case _ => 0
  }

  /** What the call returns when the bytes offered complete nothing: the errno of the first
      failing call unless a hang-up or the timeout comes first. */
  function StopCode(polls: seq<Poll>): int {
    if polls == [] then 0
    else
      match polls[0]
      case Interrupted => StopCode(polls[1..])
      case Ready(Gives(k)) => StopCode(polls[1..])
      case Ready(Fails(e)) => Negative(e)
      case Failed(e) => Negative(e)
      case HungUp => 0
  }

  /** How many of the bytes in the pipe that comes to. */
  function Delivered(pipe: seq<Byte>, polls: seq<Poll>): (n: nat)
    ensures n <= |pipe|
  {
    if Offered(polls) < |pipe| then Offered(polls) else |pipe|
  }

  /** r hands out event e, or refuses it and keeps it when it is too large; of the bytes w that
      were held and coming only the event is gone. */
  ghost predicate Hands(r: Received, e: Event, w: seq<Byte>, rest: seq<Byte>, cap: nat) {
    if e.Payload? && |e.bytes| > cap then
      r.rc == -ENOSPC && r.out == [] && r.events == [] && r.held + r.pipe == w
    else
      && r.events == [e] && r.held + r.pipe == rest
      && r.rc == (if e.Payload? then |e.bytes| else -EBADMSG) && r.out == (if e.Payload? then e.bytes else [])
  }

  /** The call saw w and left the rest in the pipe: it hands out the event complete in w, or
      keeps everything and returns stop. */
  ghost predicate Outcome(r: Received, w: seq<Byte>, rest: seq<Byte>, stop: int, whole: seq<Byte>, cap: nat) {
    match Try(w)
    case NeedMore => r == Received(stop, [], w, rest, [])
    case Took(e, _) => Try(whole).Took? && Hands(r, e, whole, Try(whole).rest, cap)
  }

  /** What a call that may loop returns, for every sequence of answers: all that the reads offer
      before something stops them is looked at together, however it is cut and interrupted.  If
      an event is complete in it, the call hands that out; otherwise it keeps the bytes. */
  lemma ReceiveReassembles(u: seq<Byte>, pipe: seq<Byte>, polls: seq<Poll>, cap: nat)
    requires |u| <= REASM_CAP
    ensures var n := Delivered(pipe, polls);
      Outcome(Receive(u, pipe, polls, cap, false), u + pipe[..n], pipe[n..], StopCode(polls), u + pipe, cap)
  {
    var n := Delivered(pipe, polls);
    Pieces(u, pipe, n);
    if Try(u).Took? {
      TryPrefix(u, pipe[..n]);
      TakesWhole(u, pipe, cap);
    } else {
      RoundsReassemble(u, pipe, polls, cap);
    }
  }

  lemma Pieces(u: seq<Byte>, pipe: seq<Byte>, n: nat)
    requires n <= |pipe|
    ensures (u + pipe[..n]) + pipe[n..] == u + pipe
  {
  }

  lemma TakesWhole(u: seq<Byte>, pipe: seq<Byte>, cap: nat)
    requires Try(u).Took?
    ensures Try(u + pipe).Took? && Hands(TakeOne(u, pipe, cap), Try(u).event, u + pipe, Try(u + pipe).rest, cap)
    ensures Try(u + pipe).event == Try(u).event && Ends(TakeOne(u, pipe, cap))
  {
    TryPrefix(u, pipe);
  }

  /** A read of m bytes moves them from what is offered to what is held. */
  lemma ReadMoves(u: seq<Byte>, pipe: seq<Byte>, m: nat, n: nat)
    requires m <= n <= |pipe|
    ensures (u + pipe[..m]) + pipe[m..][..n - m] == u + pipe[..n] && pipe[m..][n - m..] == pipe[n..]
    ensures (u + pipe[..m]) + pipe[m..] == u + pipe
  {
  }

  lemma NotFull(u: seq<Byte>)
    requires |u| <= REASM_CAP && Try(u).NeedMore?
    ensures |u| < REASM_CAP
  {
    if |u| == REASM_CAP {
      FullNeverNeedsMore(u);
    }
  }

  lemma {:induction false} RoundsReassemble(u: seq<Byte>, pipe: seq<Byte>, polls: seq<Poll>, cap: nat)
    requires |u| <= REASM_CAP && Try(u).NeedMore?
    ensures var n := Delivered(pipe, polls);
      Outcome(Rounds(u, pipe, polls, cap, false), u + pipe[..n], pipe[n..], StopCode(polls), u + pipe, cap)
    decreases |polls|
  {
    NotFull(u);
    assert u + pipe[..0] == u && pipe[0..] == pipe;
    if polls != [] {
      match polls[0]
      case Interrupted => RoundsReassemble(u, pipe, polls[1..], cap);
      case Ready(Gives(k)) => ReadReassembles(u, pipe, polls, k, cap);
      case _ =>
    }
  }

  /** One round that reads, and the rounds after it. */
  lemma RoundReads(u: seq<Byte>, pipe: seq<Byte>, polls: seq<Poll>, k: nat, cap: nat)
    requires |u| <= REASM_CAP && Try(u).NeedMore? && polls != [] && polls[0] == Ready(Gives(k))
    ensures var m := ReadLength(u, pipe, k); var v, rest := u + pipe[..m], pipe[m..];
      Rounds(u, pipe, polls, cap, false)
        == if Ends(TakeOne(v, rest, cap)) then TakeOne(v, rest, cap) else Rounds(v, rest, polls[1..], cap, false)
  {
    assert u + pipe[..0] == u;
  }

  /** A read that does not fill the buffer gives all that it offers, if the pipe has it. */
  lemma OffersLeft(u: seq<Byte>, pipe: seq<Byte>, polls: seq<Poll>, k: nat)
    requires |u| <= REASM_CAP && polls != [] && polls[0] == Ready(Gives(k))
    ensures ReadLength(u, pipe, k) <= Delivered(pipe, polls)
    ensures var m := ReadLength(u, pipe, k);
      |u| + m < REASM_CAP ==> Delivered(pipe[m..], polls[1..]) == Delivered(pipe, polls) - m
  {
  }

  lemma {:induction false} ReadReassembles(u: seq<Byte>, pipe: seq<Byte>, polls: seq<Poll>, k: nat, cap: nat)
    requires |u| < REASM_CAP && Try(u).NeedMore? && polls != [] && polls[0] == Ready(Gives(k))
    ensures var n := Delivered(pipe, polls);
      Outcome(Rounds(u, pipe, polls, cap, false), u + pipe[..n], pipe[n..], StopCode(polls), u + pipe, cap)
    decreases |polls|, 0
  {
    var n, m := Delivered(pipe, polls), ReadLength(u, pipe, k);
    var v, rest := u + pipe[..m], pipe[m..];
    OffersLeft(u, pipe, polls, k);
    ReadMoves(u, pipe, m, n);
    RoundReads(u, pipe, polls, k, cap);
    if Try(v).Took? {
      TryPrefix(v, rest[..n - m]);
      TakesWhole(v, rest, cap);
    } else {
      NotFull(v);
      RoundsReassemble(v, rest, polls[1..], cap);
    }
  }

  /** A call that may not loop does what one that may would do if everything after the first
      round that is not an interruption were missing. */
  function FirstRound(polls: seq<Poll>): seq<Poll> {
    if polls == [] then [] else if polls[0].Interrupted? then FirstRound(polls[1..]) else [polls[0]]
  }

  lemma OneShotIsOneRound(u: seq<Byte>, pipe: seq<Byte>, polls: seq<Poll>, cap: nat)
    requires |u| <= REASM_CAP
    ensures Receive(u, pipe, polls, cap, true) == Receive(u, pipe, FirstRound(polls), cap, false)
  {
    OneShotRounds(u, pipe, polls, cap);
  }

  lemma {:induction false} OneShotRounds(u: seq<Byte>, pipe: seq<Byte>, polls: seq<Poll>, cap: nat)
    requires |u| <= REASM_CAP
    ensures Rounds(u, pipe, polls, cap, true) == Rounds(u, pipe, FirstRound(polls), cap, false)
    decreases |polls|
  {
    if polls != [] {
      if polls[0].Interrupted? {
        OneShotRounds(u, pipe, polls[1..], cap);
      } else {
        var r := OneRound(u, pipe, polls[0], cap, false);
        assert Rounds(u, pipe, [polls[0]], cap, false)
            == if r.ends then r.result else Rounds(r.result.held, r.result.pipe, [], cap, false);
      }
    }
  }
}
