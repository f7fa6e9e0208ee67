/** cosim_shm_send_frame and cosim_shm_recv_frame running against each other on one ring.

    One step is one access to shared memory: a byte copied, a counter stored, the futex
    word loaded or stored, a futex call.  Steps of the two sides interleave freely under
    sequential consistency; timeouts and signals may strike whenever a side could give
    up.  A load of a side's own counter is private and taken together with the shared
    load next to it.  pushed, popped, sent and received are history: no step reads them. */
module RingProtocol {
  import opened Bits
  import opened Frames
  import opened ByteRing

  /** A frame that passes the E2BIG test. */
  type Small = f: WireFrame | 8 + |f.payload| <= CAP witness Frame(0, [])

  datatype Producer =
    | PIdle
    | PFree(f: Small) // about to load the tail in ring_free
    | PHeader(f: Small, done: nat) // header bytes copied so far
    | PPayload(f: Small, done: nat) // header published, payload bytes copied so far
    | PCheck // about to load the waiter word
    | PClear // saw a waiter, about to clear the word
    | PWake // about to call FUTEX_WAKE

  datatype Consumer =
    | CIdle
    | CPoll // about to load the head in ring_used
    | CPeek(avail: nat, hdr: seq<Byte>) // header bytes read so far
    | CPopHeader(magic: U32, plen: nat) // about to store the tail past the header
    | CPopPayload(magic: U32, plen: nat, got: seq<Byte>) // payload bytes read so far
    | CPark // about to set the waiter word
    | CRecheck // about to load the head again
    | CUnpark // data arrived, about to clear the waiter word
    | CWait // about to call FUTEX_WAIT
    | CAsleep
    | CAwake // back from FUTEX_WAIT, about to clear the waiter word
    | CDesync // a length field out of range: about to drain the ring

  datatype Sys = Sys(
    head: U32, tail: U32, waiter: bool, buf: seq<Byte>, prod: Producer, cons: Consumer,
    pushed: nat, popped: nat, sent: seq<Small>, received: seq<Frame>)

  function Start(): Sys { Sys(0, 0, false, seq(CAP, _ => 0), PIdle, CIdle, 0, 0, [], []) }

  // ----- The producer's steps -----

  /** Enter with a frame, give up waiting for room, or move on by one access. */
  datatype Send = Begin(f: Small) | GiveUp | Go

  /** ring_free against the frame's size. */
  function CheckFree(s: Sys, f: Small): Sys {
    if CAP - WrapSub(s.head, s.tail) >= 8 + |f.payload| then s.(prod := PHeader(f, 0)) else s
  }

  function StoreByte(s: Sys, i: nat, v: Byte, next: Producer): Sys
    requires |s.buf| == CAP
  {
    s.(buf := s.buf[WrapAdd(s.head, i) % CAP := v], prod := next)
  }

  function PublishHeader(s: Sys, f: Small): Sys {
    s.(head := WrapAdd(s.head, 8), pushed := s.pushed + 8, sent := s.sent + [f],
       prod := if f.payload == [] then PCheck else PPayload(f, 0))
  }

  function PublishPayload(s: Sys, f: Small): Sys {
    s.(head := WrapAdd(s.head, |f.payload|), pushed := s.pushed + |f.payload|, prod := PCheck)
  }

  function Wake(s: Sys): Sys {
    s.(prod := PIdle, cons := if s.cons.CAsleep? then CAwake else s.cons)
  }

  function ProducerStep(s: Sys, a: Send): (s': Sys)
    requires |s.buf| == CAP
    ensures |s'.buf| == CAP
  {
    match s.prod
    case PIdle => if a.Begin? then s.(prod := PFree(a.f)) else s
    case PFree(f) => if a.GiveUp? then s.(prod := PIdle) else CheckFree(s, f)
    case PHeader(f, i) =>
      if i < 8 then StoreByte(s, i, Header(f.magic, |f.payload|)[i], PHeader(f, i + 1)) else PublishHeader(s, f)
    case PPayload(f, i) =>
      if i < |f.payload| then StoreByte(s, i, f.payload[i], PPayload(f, i + 1)) else PublishPayload(s, f)
    case PCheck => s.(prod := if s.waiter then PClear else PIdle)
    case PClear => s.(waiter := false, prod := PWake)
    case PWake => Wake(s)
  }

  // ----- The consumer's steps -----

  /** Move on with a caller's buffer of cap bytes, or return early where the code may:
      on a poll that finds nothing, on a timeout or a signal. */
  datatype Recv = Proceed(cap: nat) | Leave

  function NothingYet(s: Sys, a: Recv): Sys {
    s.(cons := if a.Leave? then CIdle else CPark)
  }

  /** ring_used before the header is looked at. */
  function Poll(s: Sys, a: Recv): Sys {
    var avail := WrapSub(s.head, s.tail);
    if avail >= 8 then s.(cons := CPeek(avail, [])) else NothingYet(s, a)
  }

  function PeekByte(s: Sys, avail: nat, hdr: seq<Byte>): Sys
    requires |s.buf| == CAP
  {
    s.(cons := CPeek(avail, hdr + [s.buf[WrapAdd(s.tail, |hdr|) % CAP]]))
  }

  /** The header is known: desynchronised, complete, or still short. */
  function Decide(s: Sys, a: Recv, avail: nat, hdr: seq<Byte>): Sys
    requires |hdr| >= 8
  {
    var plen := Be32Load(hdr[4..]);
    if plen > CAP - 8 then s.(cons := CDesync)
    else if avail >= 8 + plen then
      s.(cons := if a.Proceed? && plen > a.cap then CIdle else CPopHeader(Be32Load(hdr), plen))
    else NothingYet(s, a)
  }

  function PopHeader(s: Sys, magic: U32, plen: nat): Sys {
    if plen == 0 then
      s.(tail := WrapAdd(s.tail, 8), popped := s.popped + 8, cons := CIdle, received := s.received + [Frame(magic, [])])
    else s.(tail := WrapAdd(s.tail, 8), popped := s.popped + 8, cons := CPopPayload(magic, plen, []))
  }

  function PopByte(s: Sys, magic: U32, plen: nat, got: seq<Byte>): Sys
    requires |s.buf| == CAP
  {
    s.(cons := CPopPayload(magic, plen, got + [s.buf[WrapAdd(s.tail, |got|) % CAP]]))
  }

  function PopPayload(s: Sys, magic: U32, plen: nat, got: seq<Byte>): Sys {
    s.(tail := WrapAdd(s.tail, plen), popped := s.popped + plen, cons := CIdle,
       received := s.received + [Frame(magic, got)])
  }

  function ConsumerStep(s: Sys, a: Recv): (s': Sys)
    requires |s.buf| == CAP
    ensures |s'.buf| == CAP
  {
    match s.cons
    case CIdle => s.(cons := CPoll)
    case CPoll => Poll(s, a)
    case CPeek(avail, hdr) => if |hdr| < 8 then PeekByte(s, avail, hdr) else Decide(s, a, avail, hdr)
    case CPopHeader(magic, plen) => PopHeader(s, magic, plen)
    case CPopPayload(magic, plen, got) =>
      if |got| < plen then PopByte(s, magic, plen, got) else PopPayload(s, magic, plen, got)
    case CPark => s.(waiter := true, cons := CRecheck)
    case CRecheck => s.(cons := if WrapSub(s.head, s.tail) >= 8 then CUnpark else CWait)
    case CUnpark => s.(waiter := false, cons := CPoll)
    case CWait => s.(cons := if s.waiter then CAsleep else CAwake)
    case CAsleep => if a.Leave? then s.(cons := CAwake) else s
    case CAwake => s.(waiter := false, cons := if a.Leave? then CIdle else CPoll)
    case CDesync => s.(tail := s.head, popped := s.pushed, cons := CIdle)
  }

  datatype Step = P(send: Send) | C(recv: Recv)

  function Apply(s: Sys, step: Step): Sys
    requires |s.buf| == CAP
  {
    match step case P(a) => ProducerStep(s, a) case C(a) => ConsumerStep(s, a)
  }

  /** The state after a run; every interleaving is one. */
  function After(run: seq<Step>): (s: Sys)
    ensures |s.buf| == CAP
  {
    if run == [] then Start() else Apply(After(run[..|run| - 1]), run[|run| - 1])
  }

  // ----- The byte stream -----

  /** Frame k occupies the stream right after the first k frames. */
  lemma {:induction false} StreamAt(fs: seq<Small>, k: nat)
    requires k < |fs|
    ensures var b, w := |Stream(fs[..k])|, Wire(fs[k]);
      b + |w| <= |Stream(fs)| && Stream(fs)[b..b + |w|] == w
    ensures k < |fs| - 1 ==> |Stream(fs[..k])| + |Wire(fs[k])| + |Wire(fs[|fs| - 1])| <= |Stream(fs)|
  {
    var n := |fs| - 1;
    if k < n {
      StreamAt(fs[..n], k);
      assert fs[..n][..k] == fs[..k];
    } else {
      assert fs[..k] == fs[..n];
    }
  }

  // ----- What every reachable state satisfies -----

  /** The counters are the wrapped history and never more than CAP apart. */
  predicate Counters(s: Sys) {
    && |s.buf| == CAP && s.head == s.pushed % TWO32 && s.tail == s.popped % TWO32
    && s.popped <= s.pushed <= s.popped + CAP
  }

  /** buf holds the bytes lo .. hi of the stream. */
  ghost predicate Holds(buf: seq<Byte>, st: seq<Byte>, lo: nat, hi: nat) {
    |buf| == CAP && hi <= |st| && forall p {:trigger st[p]} :: lo <= p < hi ==> buf[p % CAP] == st[p]
  }

  /** The producer's unpublished bytes lie in buf from counter value at on. */
  ghost predicate Laid(buf: seq<Byte>, at: nat, bytes: seq<Byte>, n: nat) {
    |buf| == CAP && n <= |bytes| && forall k {:trigger bytes[k]} :: 0 <= k < n ==> buf[(at + k) % CAP] == bytes[k]
  }

  /** What the ring holds, and how far the producer has got. */
  ghost predicate ProducerOk(prod: Producer, buf: seq<Byte>, st: seq<Byte>, last: Frame, pushed: nat, popped: nat) {
    Holds(buf, st, popped, pushed) &&
    match prod
    case PHeader(f, i) => && pushed == |st| && Laid(buf, pushed, Header(f.magic, |f.payload|), i)
                          && pushed + 8 + |f.payload| <= popped + CAP
    case PPayload(f, i) => && last == f && pushed + |f.payload| == |st|
                           && Laid(buf, pushed, f.payload, i) && pushed + |f.payload| <= popped + CAP
    case _ => pushed == |st|
  }

  /** How far the consumer has got: b is where the frame it must read next begins, and
      next is that frame. */
  ghost predicate ConsumerOk(cons: Consumer, st: seq<Byte>, b: nat, next: Frame, pushed: nat, popped: nat) {
    match cons
    case CPeek(avail, hdr) => && popped == b && 8 <= avail <= pushed - popped && |hdr| <= 8
                              && b + |hdr| <= |st| && hdr == st[b..b + |hdr|]
    case CPopHeader(magic, plen) => && popped == b && magic == next.magic && plen == |next.payload|
                                    && b + 8 + plen <= pushed
    case CPopPayload(magic, plen, got) => && popped == b + 8 && magic == next.magic && plen == |next.payload|
                                          && b + 8 + plen <= pushed && got <= next.payload
    case CDesync => false
    case _ => popped == b
  }

  /** Whoever sleeps over available data will be woken. */
  predicate WaitOk(prod: Producer, cons: Consumer, waiter: bool, used: int) {
    && (cons.CAsleep? && !waiter ==> prod.PWake?)
    && ((cons.CWait? || cons.CAsleep?) && waiter && used >= 8 ==> prod.PPayload? || prod.PCheck? || prod.PClear?)
  }

  predicate Popping(cons: Consumer) {
    cons.CPopHeader? || cons.CPopPayload?
  }

  function Last(sent: seq<Small>): Frame {
    if sent == [] then Frame(0, []) else sent[|sent| - 1]
  }

  function NextFrame(s: Sys): Frame {
    if |s.received| < |s.sent| then s.sent[|s.received|] else Frame(0, [])
  }

  function Boundary(s: Sys): nat
    requires |s.received| <= |s.sent|
  {
    |Stream(s.sent[..|s.received|])|
  }

  ghost predicate Inv(s: Sys) {
    && Counters(s) && s.received <= s.sent
    && (s.prod.PPayload? ==> s.sent != []) && (Popping(s.cons) ==> |s.received| < |s.sent|)
    && ProducerOk(s.prod, s.buf, Stream(s.sent), Last(s.sent), s.pushed, s.popped)
    && ConsumerOk(s.cons, Stream(s.sent), Boundary(s), NextFrame(s), s.pushed, s.popped)
    && WaitOk(s.prod, s.cons, s.waiter, s.pushed - s.popped)
  }

  // ----- Memory lemmas -----

  /** Writing one byte beyond hi leaves the bytes lo .. hi alone. */
  lemma WriteBeyond(buf: seq<Byte>, st: seq<Byte>, lo: nat, hi: nat, at: nat, v: Byte)
    requires Holds(buf, st, lo, hi) && hi <= at < lo + CAP
    ensures Holds(buf[at % CAP := v], st, lo, hi)
  {
    forall p | lo <= p < hi ensures buf[at % CAP := v][p % CAP] == st[p] { SlotsDiffer(p, at); }
  }

  lemma LayOne(buf: seq<Byte>, at: nat, bytes: seq<Byte>, n: nat)
    requires Laid(buf, at, bytes, n) && n < |bytes| <= CAP
    ensures Laid(buf[(at + n) % CAP := bytes[n]], at, bytes, n + 1)
  {
    forall k | 0 <= k < n ensures buf[(at + n) % CAP := bytes[n]][(at + k) % CAP] == bytes[k] {
      SlotsDiffer(at + k, at + n);
    }
  }

  /** Publishing the laid bytes extends what the ring holds. */
  lemma Publish(buf: seq<Byte>, st: seq<Byte>, lo: nat, hi: nat, bytes: seq<Byte>)
    requires Holds(buf, st, lo, hi) && Laid(buf, hi, bytes, |bytes|) && hi + |bytes| <= |st|
    requires lo <= hi && forall k {:trigger bytes[k]} :: 0 <= k < |bytes| ==> st[hi + k] == bytes[k]
    ensures Holds(buf, st, lo, hi + |bytes|)
  {
    forall p | lo <= p < hi + |bytes| ensures buf[p % CAP] == st[p] {
      if p >= hi { assert bytes[p - hi] == st[hi + (p - hi)]; }
    }
  }

  lemma HoldsLonger(buf: seq<Byte>, st: seq<Byte>, more: seq<Byte>, lo: nat, hi: nat)
    requires Holds(buf, st, lo, hi)
    ensures Holds(buf, st + more, lo, hi)
  {
    forall p | lo <= p < hi ensures buf[p % CAP] == (st + more)[p] { assert st[p] == (st + more)[p]; }
  }

  lemma StreamAppend(fs: seq<Small>, f: Small)
    ensures Stream(fs + [f]) == Stream(fs) + Wire(f)
  {
    assert (fs + [f])[..|fs|] == fs;
  }

  /** The shared word head + i names the slot of counter value pushed + i. */
  lemma SlotAt(n: nat, i: nat)
    ensures WrapAdd(n % TWO32, i) % CAP == (n + i) % CAP
  {
    WrapAddCounts(n, i);
    SlotOfWrapped(n + i);
  }

  // ----- The producer keeps the invariant -----

  lemma HeaderByteKeeps(s: Sys)
    requires Inv(s) && s.prod.PHeader? && s.prod.done < 8
    ensures var f, i := s.prod.f, s.prod.done;
      Inv(StoreByte(s, i, Header(f.magic, |f.payload|)[i], PHeader(f, i + 1)))
  {
    var f, i := s.prod.f, s.prod.done;
    var h := Header(f.magic, |f.payload|);
    SlotAt(s.pushed, i);
    WriteBeyond(s.buf, Stream(s.sent), s.popped, s.pushed, s.pushed + i, h[i]);
    LayOne(s.buf, s.pushed, h, i);
  }

  lemma PayloadByteKeeps(s: Sys)
    requires Inv(s) && s.prod.PPayload? && s.prod.done < |s.prod.f.payload|
    ensures var f, i := s.prod.f, s.prod.done; Inv(StoreByte(s, i, f.payload[i], PPayload(f, i + 1)))
  {
    var f, i := s.prod.f, s.prod.done;
    SlotAt(s.pushed, i);
    WriteBeyond(s.buf, Stream(s.sent), s.popped, s.pushed, s.pushed + i, f.payload[i]);
    LayOne(s.buf, s.pushed, f.payload, i);
  }

  /** More stream and more published bytes do not disturb the consumer. */
  lemma ConsumerSurvivesGrowth(cons: Consumer, st: seq<Byte>, more: seq<Byte>, b: nat, next: Frame, next': Frame,
                               pushed: nat, pushed': nat, popped: nat)
    requires ConsumerOk(cons, st, b, next, pushed, popped) && pushed <= pushed'
    requires Popping(cons) ==> next' == next
    ensures ConsumerOk(cons, st + more, b, next', pushed', popped)
  {
    if cons.CPeek? {
      assert (st + more)[b..b + |cons.hdr|] == st[b..b + |cons.hdr|];
    }
  }

  lemma HeaderPublished(buf: seq<Byte>, st: seq<Byte>, f: Small, last: Frame, pushed: nat, popped: nat)
    requires popped <= pushed && ProducerOk(PHeader(f, 8), buf, st, last, pushed, popped)
    ensures ProducerOk(if f.payload == [] then PCheck else PPayload(f, 0), buf, st + Wire(f), f, pushed + 8, popped)
  {
    var h, st' := Header(f.magic, |f.payload|), st + Wire(f);
    HoldsLonger(buf, st, Wire(f), popped, pushed);
    forall k | 0 <= k < 8 ensures st'[pushed + k] == h[k] { assert Wire(f)[k] == h[k]; }
    Publish(buf, st', popped, pushed, h);
  }

  lemma PublishHeaderKeeps(s: Sys)
    requires Inv(s) && s.prod.PHeader? && s.prod.done == 8
    ensures Inv(PublishHeader(s, s.prod.f))
  {
    var f := s.prod.f;
    var s' := PublishHeader(s, f);
    var st := Stream(s.sent);
    StreamAppend(s.sent, f);
    HeaderPublished(s.buf, st, f, Last(s.sent), s.pushed, s.popped);
    WrapAddCounts(s.pushed, 8);
    assert s'.sent[..|s.received|] == s.sent[..|s.received|];
    ConsumerSurvivesGrowth(s.cons, st, Wire(f), Boundary(s), NextFrame(s), NextFrame(s'),
                           s.pushed, s.pushed + 8, s.popped);
  }

  /** The last |payload| bytes of the stream are the last frame's payload. */
  lemma StreamEnd(fs: seq<Small>, f: Small)
    requires fs != [] && fs[|fs| - 1] == f
    ensures |Stream(fs)| >= |f.payload|
    ensures Stream(fs)[|Stream(fs)| - |f.payload|..] == f.payload
  {
    var a := Stream(fs[..|fs| - 1]);
    assert Stream(fs) == (a + Header(f.magic, |f.payload|)) + f.payload;
  }

  lemma PayloadPublished(buf: seq<Byte>, st: seq<Byte>, f: Small, pushed: nat, popped: nat)
    requires popped <= pushed && ProducerOk(PPayload(f, |f.payload|), buf, st, f, pushed, popped)
    requires st[pushed..] == f.payload
    ensures ProducerOk(PCheck, buf, st, f, pushed + |f.payload|, popped)
  {
    forall k | 0 <= k < |f.payload| ensures st[pushed + k] == f.payload[k] { assert st[pushed..][k] == f.payload[k]; }
    Publish(buf, st, popped, pushed, f.payload);
  }

  lemma PublishPayloadKeeps(s: Sys)
    requires Inv(s) && s.prod.PPayload? && s.prod.done == |s.prod.f.payload|
    ensures Inv(PublishPayload(s, s.prod.f))
  {
    var f, st := s.prod.f, Stream(s.sent);
    StreamEnd(s.sent, f);
    PayloadPublished(s.buf, st, f, s.pushed, s.popped);
    WrapAddCounts(s.pushed, |f.payload|);
    MoreIsPublished(s.cons, st, Boundary(s), NextFrame(s), s.pushed, s.popped, |f.payload|);
  }

  lemma MoreIsPublished(cons: Consumer, st: seq<Byte>, b: nat, next: Frame, pushed: nat, popped: nat, n: nat)
    requires ConsumerOk(cons, st, b, next, pushed, popped)
    ensures ConsumerOk(cons, st, b, next, pushed + n, popped)
  {
  }

  lemma CheckFreeKeeps(s: Sys, f: Small)
    requires Inv(s) && s.prod == PFree(f)
    ensures Inv(CheckFree(s, f))
  {
    UsedIsDifference(s.pushed, s.popped);
  }

  /** Steps that touch neither the ring nor its counters. */
  lemma ControlKeeps(s: Sys, p: Producer, c: Consumer, w: bool)
    requires Inv(s) && !s.prod.PHeader? && !s.prod.PPayload? && !p.PHeader? && !p.PPayload?
    requires c == s.cons || (s.cons == CAsleep && c == CAwake)
    requires WaitOk(p, c, w, s.pushed - s.popped)
    ensures Inv(s.(prod := p, cons := c, waiter := w))
  {
  }

  lemma QuietProducerKeeps(s: Sys, a: Send)
    requires Inv(s) && !s.prod.PHeader? && !s.prod.PPayload?
    ensures Inv(ProducerStep(s, a))
  {
    match s.prod
    case PIdle => if a.Begin? { ControlKeeps(s, PFree(a.f), s.cons, s.waiter); }
    case PFree(f) => if a.GiveUp? { ControlKeeps(s, PIdle, s.cons, s.waiter); } else { CheckFreeKeeps(s, f); }
    case PCheck => ControlKeeps(s, if s.waiter then PClear else PIdle, s.cons, s.waiter);
    case PClear => ControlKeeps(s, PWake, s.cons, false);
    case PWake => ControlKeeps(s, PIdle, if s.cons.CAsleep? then CAwake else s.cons, s.waiter);
  }

  lemma ProducerKeeps(s: Sys, a: Send)
    requires Inv(s)
    ensures Inv(ProducerStep(s, a))
  {
    match s.prod
    case PHeader(f, i) => if i < 8 { HeaderByteKeeps(s); } else { PublishHeaderKeeps(s); }
    case PPayload(f, i) => if i < |f.payload| { PayloadByteKeeps(s); } else { PublishPayloadKeeps(s); }
    case _ => QuietProducerKeeps(s, a);
  }

  // ----- The consumer keeps the invariant -----

  lemma WholePrefix(fs: seq<Small>, k: nat)
    requires k <= |fs|
    ensures |Stream(fs[..k])| < |Stream(fs)| ==> k < |fs|
  {
    assert fs[..|fs|] == fs;
  }

  /** The byte a load at tail + k sees. */
  lemma ReadByte(s: Sys, k: nat)
    requires Counters(s) && Holds(s.buf, Stream(s.sent), s.popped, s.pushed) && s.popped + k < s.pushed
    ensures s.buf[WrapAdd(s.tail, k) % CAP] == Stream(s.sent)[s.popped + k]
  {
    SlotAt(s.popped, k);
  }

  lemma SliceGrows(st: seq<Byte>, b: nat, n: nat)
    requires b + n < |st|
    ensures st[b..b + n + 1] == st[b..b + n] + [st[b + n]]
  {
  }

  lemma PayloadByteAt(fs: seq<Small>, j: nat, k: nat)
    requires j < |fs| && k < |fs[j].payload|
    ensures |Stream(fs[..j])| + 8 + k < |Stream(fs)|
    ensures Stream(fs)[|Stream(fs[..j])| + 8 + k] == fs[j].payload[k]
  {
    StreamAt(fs, j);
    var b, w := |Stream(fs[..j])|, Wire(fs[j]);
    assert Stream(fs)[b..b + |w|][8 + k] == w[8 + k];
  }

  /** If any byte waits at the consumer's boundary, a whole header does. */
  lemma NextHeader(s: Sys)
    requires Inv(s) && s.popped == Boundary(s) < s.pushed
    ensures |s.received| < |s.sent| && Boundary(s) + 8 + |NextFrame(s).payload| <= |Stream(s.sent)|
    ensures Stream(s.sent)[Boundary(s)..Boundary(s) + 8] == Header(NextFrame(s).magic, |NextFrame(s).payload|)
  {
    WholePrefix(s.sent, |s.received|);
    var b, f := Boundary(s), s.sent[|s.received|];
    StreamAt(s.sent, |s.received|);
    assert Stream(s.sent)[b..b + 8] == Wire(f)[..8];
  }

  /** Steps that only move the consumer on, to a state where it cannot sleep. */
  lemma ConsumerMoves(s: Sys, c: Consumer)
    requires Inv(s) && !c.CWait? && !c.CAsleep? && (Popping(c) ==> |s.received| < |s.sent|)
    requires ConsumerOk(c, Stream(s.sent), Boundary(s), NextFrame(s), s.pushed, s.popped)
    ensures Inv(s.(cons := c))
  {
  }

  lemma PollKeeps(s: Sys, a: Recv)
    requires Inv(s) && s.cons.CPoll?
    ensures Inv(Poll(s, a))
  {
    UsedIsDifference(s.pushed, s.popped);
    ConsumerMoves(s, Poll(s, a).cons);
  }

  lemma PeekByteKeeps(s: Sys)
    requires Inv(s) && s.cons.CPeek? && |s.cons.hdr| < 8
    ensures Inv(PeekByte(s, s.cons.avail, s.cons.hdr))
  {
    PeekedIsStream(s);
    ConsumerMoves(s, PeekByte(s, s.cons.avail, s.cons.hdr).cons);
  }

  lemma PeekedIsStream(s: Sys)
    requires Inv(s) && s.cons.CPeek? && |s.cons.hdr| < 8
    ensures var hdr, st := PeekByte(s, s.cons.avail, s.cons.hdr).cons.hdr, Stream(s.sent);
      s.popped + |hdr| <= |st| && hdr == st[s.popped..s.popped + |hdr|]
  {
    ReadByte(s, |s.cons.hdr|);
    SliceGrows(Stream(s.sent), s.popped, |s.cons.hdr|);
  }

  /** The peeked header is the next frame's, so the desynchronised branch is dead. */
  lemma DecideKnowsTheFrame(s: Sys)
    requires Inv(s) && s.cons.CPeek? && |s.cons.hdr| == 8
    ensures |s.received| < |s.sent|
    ensures Be32Load(s.cons.hdr) == NextFrame(s).magic
    ensures Be32Load(s.cons.hdr[4..]) == |NextFrame(s).payload| <= CAP - 8
  {
    NextHeader(s);
    HeaderRoundTrip(NextFrame(s).magic, |NextFrame(s).payload|);
  }

  lemma DecideIsOk(s: Sys, a: Recv)
    requires Inv(s) && s.cons.CPeek? && |s.cons.hdr| == 8
    ensures |s.received| < |s.sent|
    ensures ConsumerOk(Decide(s, a, s.cons.avail, s.cons.hdr).cons, Stream(s.sent), Boundary(s), NextFrame(s),
                       s.pushed, s.popped)
  {
    DecideKnowsTheFrame(s);
  }

  lemma DecideKeeps(s: Sys, a: Recv)
    requires Inv(s) && s.cons.CPeek? && |s.cons.hdr| == 8
    ensures Inv(Decide(s, a, s.cons.avail, s.cons.hdr))
  {
    DecideIsOk(s, a);
    ConsumerMoves(s, Decide(s, a, s.cons.avail, s.cons.hdr).cons);
  }

  /** Advancing the tail frees room and keeps what is left. */
  lemma TailAdvances(prod: Producer, buf: seq<Byte>, st: seq<Byte>, last: Frame, pushed: nat, popped: nat, n: nat)
    requires ProducerOk(prod, buf, st, last, pushed, popped)
    ensures ProducerOk(prod, buf, st, last, pushed, popped + n)
  {
  }

  /** Delivering the next frame moves the boundary past it. */
  lemma Deliver(sent: seq<Small>, received: seq<Frame>, f: Frame)
    requires received <= sent && |received| < |sent| && f == sent[|received|]
    ensures received + [f] <= sent
    ensures |Stream(sent[..|received| + 1])| == |Stream(sent[..|received|])| + 8 + |f.payload|
  {
    assert sent[..|received| + 1] == sent[..|received|] + [sent[|received|]];
    StreamAppend(sent[..|received|], sent[|received|]);
  }

  lemma PopHeaderKeeps(s: Sys)
    requires Inv(s) && s.cons.CPopHeader?
    ensures Inv(PopHeader(s, s.cons.magic, s.cons.plen))
  {
    WrapAddCounts(s.popped, 8);
    TailAdvances(s.prod, s.buf, Stream(s.sent), Last(s.sent), s.pushed, s.popped, 8);
    if s.cons.plen == 0 {
      PopEmptyKeeps(s);
    }
  }

  lemma PopEmptyKeeps(s: Sys)
    requires Inv(s) && s.cons.CPopHeader? && s.cons.plen == 0
    ensures Inv(PopHeader(s, s.cons.magic, 0))
  {
    WrapAddCounts(s.popped, 8);
    TailAdvances(s.prod, s.buf, Stream(s.sent), Last(s.sent), s.pushed, s.popped, 8);
    Deliver(s.sent, s.received, NextFrame(s));
  }

  lemma PopByteKeeps(s: Sys)
    requires Inv(s) && s.cons.CPopPayload? && |s.cons.got| < s.cons.plen
    ensures Inv(PopByte(s, s.cons.magic, s.cons.plen, s.cons.got))
  {
    var p, k := NextFrame(s).payload, |s.cons.got|;
    NextPayloadByte(s, k);
    PrefixGrows(p, s.cons.got);
    ConsumerMoves(s, CPopPayload(s.cons.magic, s.cons.plen, s.cons.got + [p[k]]));
  }

  lemma PrefixGrows(p: seq<Byte>, got: seq<Byte>)
    requires got <= p && |got| < |p|
    ensures got + [p[|got|]] <= p
  {
  }

  /** The byte the consumer is about to take is the next byte of the frame. */
  lemma NextPayloadByte(s: Sys, k: nat)
    requires Inv(s) && s.cons.CPopPayload? && k < s.cons.plen
    ensures k < |NextFrame(s).payload| && s.buf[WrapAdd(s.tail, k) % CAP] == NextFrame(s).payload[k]
  {
    ReadByte(s, k);
    PayloadByteAt(s.sent, |s.received|, k);
  }

  lemma PopPayloadKeeps(s: Sys)
    requires Inv(s) && s.cons.CPopPayload? && |s.cons.got| == s.cons.plen
    ensures Inv(PopPayload(s, s.cons.magic, s.cons.plen, s.cons.got))
  {
    var f := NextFrame(s);
    assert s.cons.got == f.payload;
    WrapAddCounts(s.popped, s.cons.plen);
    TailAdvances(s.prod, s.buf, Stream(s.sent), Last(s.sent), s.pushed, s.popped, s.cons.plen);
    Deliver(s.sent, s.received, f);
  }

  predicate Settled(cons: Consumer) {
    !cons.CPeek? && !cons.CPopHeader? && !cons.CPopPayload? && !cons.CDesync?
  }

  /** Steps on the waiter word and the futex. */
  lemma ParkingKeeps(s: Sys, c: Consumer, w: bool)
    requires Inv(s) && Settled(s.cons) && Settled(c) && WaitOk(s.prod, c, w, s.pushed - s.popped)
    ensures Inv(s.(cons := c, waiter := w))
  {
  }

  lemma WaitingStep(s: Sys, a: Recv)
    requires Counters(s) && Settled(s.cons) && !s.cons.CPoll? && WaitOk(s.prod, s.cons, s.waiter, s.pushed - s.popped)
    ensures var s' := ConsumerStep(s, a);
      && s' == s.(cons := s'.cons, waiter := s'.waiter) && Settled(s'.cons)
      && WaitOk(s.prod, s'.cons, s'.waiter, s.pushed - s.popped)
  {
    UsedIsDifference(s.pushed, s.popped);
  }

  lemma WaitingKeeps(s: Sys, a: Recv)
    requires Inv(s) && Settled(s.cons) && !s.cons.CPoll?
    ensures Inv(ConsumerStep(s, a))
  {
    WaitingStep(s, a);
    ParkingKeeps(s, ConsumerStep(s, a).cons, ConsumerStep(s, a).waiter);
  }

  lemma ConsumerKeeps(s: Sys, a: Recv)
    requires Inv(s)
    ensures Inv(ConsumerStep(s, a))
  {
    match s.cons
    case CPoll => PollKeeps(s, a);
    case CPeek(avail, hdr) => if |hdr| < 8 { PeekByteKeeps(s); } else { DecideKeeps(s, a); }
    case CPopHeader(magic, plen) => PopHeaderKeeps(s);
    case CPopPayload(magic, plen, got) => if |got| < plen { PopByteKeeps(s); } else { PopPayloadKeeps(s); }
    case _ => WaitingKeeps(s, a);
  }

  // ----- Every run -----

  /** The invariant holds after every run. */
  lemma {:induction false} EveryRun(run: seq<Step>)
    ensures Inv(After(run))
  {
    if run == [] {
      assert Stream([]) == [];
    } else {
      var n := |run| - 1;
      EveryRun(run[..n]);
      match run[n]
      case P(a) => ProducerKeeps(After(run[..n]), a);
      case C(a) => ConsumerKeeps(After(run[..n]), a);
    }
  }

  /** Under every interleaving, through every wrap of the counters: the ring never holds
      more than its capacity, the 32-bit difference is the true fill, the frames received
      are a prefix of the frames sent, and the desynchronised branch is never taken. */
  lemma RingIsSafe(run: seq<Step>)
    ensures var s := After(run);
      && WrapSub(s.head, s.tail) == s.pushed - s.popped <= 65536
      && s.received <= s.sent
      && !s.cons.CDesync?
  {
    EveryRun(run);
    var s := After(run);
    UsedIsDifference(s.pushed, s.popped);
  }

  /** No lost wakeup: if the consumer sleeps while a header or more is in the ring, the
      producer has not yet passed its check of the waiter word, or is about to wake it. */
  lemma NoLostWakeup(run: seq<Step>)
    requires After(run).cons.CAsleep? && WrapSub(After(run).head, After(run).tail) >= 8
    ensures var p := After(run).prod; p.PPayload? || p.PCheck? || p.PClear? || p.PWake?
  {
    EveryRun(run);
    UsedIsDifference(After(run).pushed, After(run).popped);
  }

  function ProducerAlone(s: Sys, n: nat): (s': Sys)
    requires |s.buf| == CAP
    ensures |s'.buf| == CAP
    decreases n
  {
    if n == 0 then s else ProducerAlone(ProducerStep(s, Go), n - 1)
  }

  function StepsToWake(p: Producer): nat {
    match p
    case PPayload(f, i) => if i <= |f.payload| then 4 + |f.payload| - i else 4
    case PCheck => 3
    case PClear => 2
    case _ => 1
  }

  /** The wakeup does arrive: from any such state the producer alone, never blocked,
      wakes the sleeper within its remaining steps. */
  lemma {:induction false} WakeArrives(s: Sys)
    requires Inv(s) && s.cons.CAsleep? && s.pushed - s.popped >= 8
    ensures ProducerAlone(s, StepsToWake(s.prod)).cons == CAwake
    decreases StepsToWake(s.prod)
  {
    if s.prod.PWake? {
      assert ProducerAlone(s, 1) == ProducerAlone(ProducerStep(s, Go), 0);
    } else {
      CloserToWake(s);
      WakeArrives(ProducerStep(s, Go));
    }
  }

  /** One step of the producer brings the wakeup closer. */
  lemma CloserToWake(s: Sys)
    requires Inv(s) && s.cons.CAsleep? && s.pushed - s.popped >= 8 && !s.prod.PWake?
    ensures var s' := ProducerStep(s, Go);
      && Inv(s') && s'.cons.CAsleep? && s'.pushed - s'.popped >= 8
      && StepsToWake(s.prod) == StepsToWake(s'.prod) + 1
  {
    ProducerKeeps(s, Go);
  }
}
