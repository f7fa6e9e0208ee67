/** Frames do arrive: while the producer is between frames or waits for room, the consumer's
    own steps, with a buffer large enough, take every frame sent, however they were interrupted
    before; then a waiting producer has room, sends its frame, and that arrives as well. */
module RingDelivery {
  import opened ByteRing
  import opened RingProtocol

  /** The consumer's next n steps, taken by a caller with a buffer of cap bytes who does not
      give up. */
  function ConsumerAlone(s: Sys, cap: nat, n: nat): (s': Sys)
    requires |s.buf| == CAP
    ensures |s'.buf| == CAP
    decreases n
  {
    if n == 0 then s else ConsumerAlone(ConsumerStep(s, Proceed(cap)), cap, n - 1)
  }

  /** Every frame still to be taken fits the caller's buffer. */
  ghost predicate AllFit(s: Sys, cap: nat) {
    forall i :: |s.received| <= i < |s.sent| ==> |s.sent[i].payload| <= cap
  }

  /** A header was peeked at before the whole frame was there. */
  predicate Stale(s: Sys) {
    s.cons.CPeek? && s.cons.avail < 8 + |NextFrame(s).payload|
  }

  /** How far the consumer is from taking the next frame. */
  function Rank(s: Sys): nat {
    match s.cons
    case CPopPayload(magic, plen, got) => if |got| <= plen <= CAP then 1 + plen - |got| else 0
    case CPopHeader(magic, plen) => CAP + 2
    case CPeek(avail, hdr) =>
      var toGo := if |hdr| <= 8 then 8 - |hdr| else 0;
      if Stale(s) then CAP + 16 + toGo else CAP + 3 + toGo
    case CPoll => CAP + 12
    case CIdle => CAP + 13
    case CUnpark => CAP + 13
    case CAwake => CAP + 13
    case CRecheck => CAP + 14
    case CWait => CAP + 14
    case CPark => CAP + 15
    case CAsleep => 0
    case CDesync => 0
  }

  const STEPS_PER_FRAME: nat := CAP + 25

  /** Steps that are enough to take every frame sent. */
  function Fuel(s: Sys): nat
    requires |s.received| <= |s.sent|
  {
    (|s.sent| - |s.received|) * STEPS_PER_FRAME + Rank(s)
  }

  lemma RankBound(s: Sys)
    ensures Rank(s) < STEPS_PER_FRAME
  {
  }

  /** The producer has everything it began in the ring. */
  predicate Between(p: Producer) {
    p.PIdle? || p.PFree?
  }

  /** The producer is between frames and some frame is still to be taken. */
  ghost predicate Waiting(s: Sys) {
    Inv(s) && Between(s.prod) && |s.received| < |s.sent|
  }

  /** Then the whole of the next frame is in the ring. */
  lemma WholeFrameThere(s: Sys)
    requires Waiting(s) && s.popped == Boundary(s)
    ensures s.pushed - s.popped >= 8 + |NextFrame(s).payload|
    ensures WrapSub(s.head, s.tail) == s.pushed - s.popped
  {
    StreamAt(s.sent, |s.received|);
    UsedIsDifference(s.pushed, s.popped);
  }

  /** Nobody is left asleep or about to fall asleep. */
  lemma NotAsleep(s: Sys)
    requires Waiting(s)
    ensures !s.cons.CAsleep? && !s.cons.CDesync? && !(s.cons.CWait? && s.waiter)
  {
    if s.cons.CAsleep? || s.cons.CWait? {
      WholeFrameThere(s);
    }
  }

  /** One step of the consumer: a frame taken, or one step closer to it. */
  ghost predicate Closer(s: Sys, s': Sys) {
    && s'.prod == s.prod && s'.sent == s.sent
    && (|s'.received| == |s.received| + 1 || (s'.received == s.received && Rank(s') < Rank(s)))
  }

  lemma PollCloser(s: Sys, cap: nat)
    requires Waiting(s) && s.cons.CPoll?
    ensures Closer(s, Poll(s, Proceed(cap)))
  {
    WholeFrameThere(s);
  }

  lemma PeekCloser(s: Sys)
    requires Waiting(s) && s.cons.CPeek? && |s.cons.hdr| < 8
    ensures Closer(s, PeekByte(s, s.cons.avail, s.cons.hdr))
  {
  }

  lemma DecideCloser(s: Sys, cap: nat)
    requires Waiting(s) && s.cons.CPeek? && |s.cons.hdr| == 8 && |NextFrame(s).payload| <= cap
    ensures Closer(s, Decide(s, Proceed(cap), s.cons.avail, s.cons.hdr))
  {
    DecideKnowsTheFrame(s);
  }

  lemma PopCloser(s: Sys, cap: nat)
    requires Waiting(s) && (s.cons.CPopHeader? || s.cons.CPopPayload?)
    ensures Closer(s, ConsumerStep(s, Proceed(cap)))
  {
  }

  lemma ParkingCloser(s: Sys, cap: nat)
    requires Waiting(s) && Settled(s.cons) && !s.cons.CPoll?
    ensures Closer(s, ConsumerStep(s, Proceed(cap)))
  {
    NotAsleep(s);
    WholeFrameThere(s);
  }

  lemma StepCloser(s: Sys, cap: nat)
    requires Waiting(s) && |NextFrame(s).payload| <= cap
    ensures Closer(s, ConsumerStep(s, Proceed(cap)))
  {
    NotAsleep(s);
    match s.cons
    case CPoll => PollCloser(s, cap);
    case CPeek(avail, hdr) => if |hdr| < 8 { PeekCloser(s); } else { DecideCloser(s, cap); }
    case CPopHeader(magic, plen) => PopCloser(s, cap);
    case CPopPayload(magic, plen, got) => PopCloser(s, cap);
    case _ => ParkingCloser(s, cap);
  }

  lemma FuelDrops(s: Sys, s': Sys)
    requires |s.received| < |s.sent| && Closer(s, s')
    ensures |s'.received| <= |s'.sent| && Fuel(s') < Fuel(s)
  {
    RankBound(s');
  }

  /** From any state the invariant allows, with the producer between frames. */
  lemma {:induction false} ConsumerDelivers(s: Sys, cap: nat) returns (n: nat)
    requires Inv(s) && Between(s.prod) && AllFit(s, cap)
    ensures n <= Fuel(s)
    ensures var s' := ConsumerAlone(s, cap, n); s'.received == s.sent && s'.sent == s.sent && s'.prod == s.prod
    decreases Fuel(s)
  {
    if |s.received| == |s.sent| {
      n := 0;
    } else {
      var s' := ConsumerStep(s, Proceed(cap));
      StepCloser(s, cap);
      FuelDrops(s, s');
      ConsumerKeeps(s, Proceed(cap));
      n := ConsumerDelivers(s', cap);
      n := n + 1;
    }
  }

  lemma {:induction false} ConsumerAloneKeeps(s: Sys, cap: nat, n: nat)
    requires Inv(s)
    ensures Inv(ConsumerAlone(s, cap, n))
    decreases n
  {
    if n > 0 {
      ConsumerKeeps(s, Proceed(cap));
      ConsumerAloneKeeps(ConsumerStep(s, Proceed(cap)), cap, n - 1);
    }
  }

  ghost predicate DeliversWithin(s: Sys, cap: nat, m: nat)
    requires |s.buf| == CAP
  {
    exists n: nat :: n <= m && ConsumerAlone(s, cap, n).received == s.sent
  }

  lemma FuelBound(s: Sys)
    requires |s.received| <= |s.sent|
    ensures Fuel(s) <= (|s.sent| - |s.received| + 1) * STEPS_PER_FRAME
  {
    RankBound(s);
  }

  /** After every run that leaves the producer between frames, the consumer alone receives
      all frames sent, each within a bounded number of steps, when they fit the buffer. */
  lemma EveryFrameArrives(run: seq<Step>, cap: nat)
    requires Between(After(run).prod) && AllFit(After(run), cap)
    ensures var s := After(run);
      |s.received| <= |s.sent| && DeliversWithin(s, cap, (|s.sent| - |s.received| + 1) * STEPS_PER_FRAME)
  {
    EveryRun(run);
    DeliversInTime(After(run), cap);
  }

  lemma DeliversInTime(s: Sys, cap: nat)
    requires Inv(s) && Between(s.prod) && AllFit(s, cap)
    ensures DeliversWithin(s, cap, (|s.sent| - |s.received| + 1) * STEPS_PER_FRAME)
  {
    FuelBound(s);
    var n := ConsumerDelivers(s, cap);
  }

  // ----- A frame that does not fit stays -----

  lemma TooLargeStep(s: Sys, cap: nat)
    requires Waiting(s) && !Popping(s.cons) && |NextFrame(s).payload| > cap
    ensures var s' := ConsumerStep(s, Proceed(cap));
      !Popping(s'.cons) && s'.received == s.received && s'.sent == s.sent && s'.prod == s.prod && s'.popped == s.popped
  {
    NotAsleep(s);
    if s.cons.CPeek? && |s.cons.hdr| == 8 {
      DecideKnowsTheFrame(s);
    }
  }

  /** However often a caller with too small a buffer asks, the frame is neither handed out nor
      removed. */
  lemma {:induction false} TooLargeStays(s: Sys, cap: nat, n: nat)
    requires Waiting(s) && !Popping(s.cons) && |NextFrame(s).payload| > cap
    ensures var s' := ConsumerAlone(s, cap, n); s'.received == s.received && s'.popped == s.popped
    decreases n
  {
    if n > 0 {
      TooLargeStep(s, cap);
      ConsumerKeeps(s, Proceed(cap));
      TooLargeStays(ConsumerStep(s, Proceed(cap)), cap, n - 1);
    }
  }

  // ----- The producer, once it has room, finishes its frame -----

  /** A waiting producer goes ahead exactly when the frame fits what is free, and nothing else
      changes either way. */
  lemma RoomIsSeen(run: seq<Step>)
    requires After(run).prod.PFree?
    ensures var s, s' := After(run), ProducerStep(After(run), Go);
      && (s'.prod == PHeader(s.prod.f, 0) <==> 8 + |s.prod.f.payload| <= CAP - (s.pushed - s.popped))
      && (s'.prod == PHeader(s.prod.f, 0) || s'.prod == s.prod) && s' == s.(prod := s'.prod)
  {
    EveryRun(run);
    UsedIsDifference(After(run).pushed, After(run).popped);
  }

  /** The frame begun but not yet announced by its header. */
  function Begun(p: Producer): seq<Small> {
    match p
    case PFree(f) => [f]
    case PHeader(f, i) => [f]
    case _ => []
  }

  function StepsToIdle(p: Producer): nat {
    match p
    case PFree(f) => CAP + 16
    case PHeader(f, i) => CAP + 6 + if i <= 8 then 8 - i else 0
    case PPayload(f, i) => 4 + if i <= |f.payload| then |f.payload| - i else 0
    case PCheck => 3
    case PClear => 2
    case PWake => 1
    case PIdle => 0
  }

  /** Nothing stands in the producer's way. */
  predicate CanGo(s: Sys) {
    && |s.buf| == CAP
    && (s.prod.PHeader? ==> s.prod.done <= 8)
    && (s.prod.PPayload? ==> s.prod.done <= |s.prod.f.payload|)
    && (s.prod.PFree? ==> s.head == s.tail)
  }

  lemma CloserToIdle(s: Sys)
    requires CanGo(s) && !s.prod.PIdle?
    ensures var s' := ProducerStep(s, Go);
      && s'.sent + Begun(s'.prod) == s.sent + Begun(s.prod) && s'.received == s.received
      && CanGo(s') && StepsToIdle(s'.prod) < StepsToIdle(s.prod)
  {
  }

  lemma {:induction false} ProducerFinishes(s: Sys) returns (k: nat)
    requires CanGo(s)
    ensures k <= StepsToIdle(s.prod)
    ensures var s' := ProducerAlone(s, k);
      s'.prod.PIdle? && s'.sent == s.sent + Begun(s.prod) && s'.received == s.received
    decreases StepsToIdle(s.prod)
  {
    if s.prod.PIdle? {
      k := 0;
    } else {
      CloserToIdle(s);
      k := ProducerFinishes(ProducerStep(s, Go));
      k := k + 1;
    }
  }

  lemma {:induction false} ProducerAloneKeeps(s: Sys, k: nat)
    requires Inv(s)
    ensures Inv(ProducerAlone(s, k))
    decreases k
  {
    if k > 0 {
      ProducerKeeps(s, Go);
      ProducerAloneKeeps(ProducerStep(s, Go), k - 1);
    }
  }

  lemma AllOfStream(s: Sys)
    requires Inv(s) && Between(s.prod) && s.received == s.sent
    ensures s.head == s.tail
  {
    assert s.sent[..|s.received|] == s.sent;
  }

  lemma InvCanGo(s: Sys)
    requires Inv(s) && (!s.prod.PFree? || s.received == s.sent)
    ensures CanGo(s)
  {
    if s.prod.PFree? {
      AllOfStream(s);
    }
  }

  /** So no interleaving can wedge the ring: from every reachable state, whatever the producer
      was about to do, some steps of the consumer, then the producer's, then the consumer's
      deliver everything sent, the frame begun included. */
  lemma NothingIsWedged(run: seq<Step>) returns (m: nat, k: nat, n: nat)
    ensures var s := ProducerAlone(ConsumerAlone(After(run), CAP, m), k);
      s.sent == After(run).sent + Begun(After(run).prod) && ConsumerAlone(s, CAP, n).received == s.sent
  {
    EveryRun(run);
    var s := After(run);
    m := 0;
    if s.prod.PFree? {
      m := ConsumerDelivers(s, CAP);
    }
    var s1 := ConsumerAlone(s, CAP, m);
    ConsumerAloneKeeps(s, CAP, m);
    InvCanGo(s1);
    k := ProducerFinishes(s1);
    ProducerAloneKeeps(s1, k);
    n := ConsumerDelivers(ProducerAlone(s1, k), CAP);
  }

  /** In particular any frame handed to an idle producer gets through. */
  lemma AnyFrameGetsThrough(run: seq<Step>, f: Small) returns (m: nat, k: nat, n: nat)
    requires After(run).prod.PIdle?
    ensures var s := ProducerAlone(ConsumerAlone(After(run + [P(Begin(f))]), CAP, m), k);
      ConsumerAlone(s, CAP, n).received == After(run).sent + [f]
  {
    assert (run + [P(Begin(f))])[..|run|] == run;
    m, k, n := NothingIsWedged(run + [P(Begin(f))]);
  }

  // ----- Giving up, and waiting -----

  /** A producer that gives up waiting for room has left no trace. */
  lemma GivingUpLeavesNoTrace(run: seq<Step>, f: Small)
    requires After(run).prod.PIdle?
    ensures After(run + [P(Begin(f)), P(GiveUp)]) == After(run)
  {
    var b := run + [P(Begin(f))];
    assert b[..|run|] == run && (run + [P(Begin(f)), P(GiveUp)])[..|run| + 1] == b;
  }

  /** A receiver that finds less than a header returns if it was told not to wait, and otherwise
      announces itself and falls asleep. */
  lemma EmptyRingSleeps(s: Sys, cap: nat)
    requires Inv(s) && s.cons.CPoll? && s.pushed - s.popped < 8
    ensures ConsumerStep(s, Leave) == s.(cons := CIdle)
    ensures ConsumerAlone(s, cap, 4) == s.(cons := CAsleep, waiter := true)
  {
    UsedIsDifference(s.pushed, s.popped);
    AloneFour(s, cap);
  }

  lemma AloneFour(s: Sys, cap: nat)
    requires |s.buf| == CAP
    ensures var p := Proceed(cap);
      ConsumerAlone(s, cap, 4) == ConsumerStep(ConsumerStep(ConsumerStep(ConsumerStep(s, p), p), p), p)
  {
    var p := Proceed(cap);
    var s1 := ConsumerStep(s, p);
    var s2 := ConsumerStep(s1, p);
    var s3 := ConsumerStep(s2, p);
    assert ConsumerAlone(s3, cap, 1) == ConsumerAlone(ConsumerStep(s3, p), cap, 0);
    assert ConsumerAlone(s2, cap, 2) == ConsumerAlone(s3, cap, 1);
    assert ConsumerAlone(s1, cap, 3) == ConsumerAlone(s2, cap, 2);
  }

  /** A receiver that meets an impossible length drains the ring and returns. */
  lemma DesyncDrains(s: Sys, a: Recv)
    requires |s.buf| == CAP && s.cons.CDesync?
    ensures var s' := ConsumerStep(s, a);
      s'.tail == s.head && s'.popped == s.pushed && s'.cons.CIdle? && s'.received == s.received
  {
  }

  /** Asleep it stays until it is woken or gives up; giving up, it takes its announcement back. */
  lemma {:induction false} SleeperStays(s: Sys, cap: nat, n: nat)
    requires |s.buf| == CAP && s.cons.CAsleep?
    ensures ConsumerAlone(s, cap, n) == s
    ensures ConsumerStep(ConsumerStep(s, Leave), Leave) == s.(cons := CIdle, waiter := false)
    decreases n
  {
    if n > 0 {
      SleeperStays(s, cap, n - 1);
    }
  }

  /** The waiter word is set. */
  predicate Announced(cons: Consumer) {
    cons.CRecheck? || cons.CUnpark? || cons.CWait? || cons.CAsleep? || cons.CAwake?
  }

  lemma WaiterStep(s: Sys, step: Step)
    requires |s.buf| == CAP && (s.waiter ==> Announced(s.cons))
    ensures var s' := Apply(s, step); s'.waiter ==> Announced(s'.cons)
  {
  }

  /** In every run the waiter word is set only while the receiver is between announcing itself
      and taking the announcement back, so nobody is woken who did not ask for it. */
  lemma {:induction false} WaiterMeansWaiting(run: seq<Step>)
    ensures After(run).waiter ==> Announced(After(run).cons)
  {
    if run != [] {
      WaiterMeansWaiting(run[..|run| - 1]);
      WaiterStep(After(run[..|run| - 1]), run[|run| - 1]);
    }
  }
}
