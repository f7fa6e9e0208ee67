/** Finding frames in a byte stream: what the staging buffer's parser makes of a stream,
    independently of how the stream arrives. */
module Reassembly {
  import opened Bits
  import opened Frames

  const TMAS: U32 := 0x544D_4153
  const TMAR: U32 := 0x544D_4152
  const TMDC: U32 := 0x544D_4443
  const HEADER_BYTES: nat := 8
  const MAX_PAYLOAD: nat := 4096
  const REASM_CAP: nat := 8 + 4096

  predicate MagicKnown(m: U32) {
    m == TMAS || m == TMAR || m == TMDC
  }

  /** What one attempt at the front of the buffer takes off it. */
  datatype Event = BadMagic | BadLength | Payload(bytes: seq<Byte>)

  datatype Attempt = NeedMore | Took(event: Event, rest: seq<Byte>)

  function Length(u: seq<Byte>): U32
    requires |u| >= HEADER_BYTES
  {
    Be32Load(u[4..])
  }

  /** reasm_try_extract on the bytes held, for a caller whose buffer is large enough. */
  function Try(u: seq<Byte>): (a: Attempt)
    ensures a.Took? ==> |a.rest| < |u|
  {
    if |u| < HEADER_BYTES then NeedMore
    else if !MagicKnown(Be32Load(u)) then Took(BadMagic, u[1..])
    else if Length(u) > MAX_PAYLOAD then Took(BadLength, u[HEADER_BYTES..])
    else if |u| < HEADER_BYTES + Length(u) then NeedMore
    else Took(Payload(u[HEADER_BYTES..HEADER_BYTES + Length(u)]), u[HEADER_BYTES + Length(u)..])
  }

  /** Everything that can be taken from u, and the bytes left over. */
  function Events(u: seq<Byte>): seq<Event>
    decreases |u|
  {
    var a := Try(u);
    if a.NeedMore? then [] else [a.event] + Events(a.rest)
  }

  function Rest(u: seq<Byte>): seq<Byte>
    decreases |u|
  {
    var a := Try(u);
    if a.NeedMore? then u else Rest(a.rest)
  }

  // ----- Chunks do not matter -----

  /** More bytes never change what the front of the buffer yields. */
  lemma TryPrefix(u: seq<Byte>, v: seq<Byte>)
    requires Try(u).Took?
    ensures Try(u + v) == Took(Try(u).event, Try(u).rest + v)
  {
    var w := u + v;
    assert w[..8] == u[..8];
    assert Be32Load(w) == Be32Load(u);
    assert Length(w) == Length(u);
    assert w[1..] == u[1..] + v && w[HEADER_BYTES..] == u[HEADER_BYTES..] + v;
    var end := HEADER_BYTES + Length(u);
    if MagicKnown(Be32Load(u)) && Length(u) <= MAX_PAYLOAD {
      assert w[HEADER_BYTES..end] == u[HEADER_BYTES..end] && w[end..] == u[end..] + v;
    }
  }

  /** Parsing a stream in two pieces gives what parsing it whole gives. */
  lemma {:induction false} ChunksDoNotMatter(u: seq<Byte>, v: seq<Byte>)
    ensures Events(u + v) == Events(u) + Events(Rest(u) + v)
    ensures Rest(u + v) == Rest(Rest(u) + v)
    decreases |u|
  {
    var a := Try(u);
    if a.Took? {
      TryPrefix(u, v);
      ChunksDoNotMatter(a.rest, v);
      TakesFirst(u, a.event, a.rest);
      TakesFirst(u + v, a.event, a.rest + v);
      Regroup([a.event], Events(a.rest), Events(Rest(u) + v));
    }
  }

  lemma TakesFirst(u: seq<Byte>, e: Event, rest: seq<Byte>)
    requires Try(u) == Took(e, rest)
    ensures Events(u) == [e] + Events(rest) && Rest(u) == Rest(rest)
  {
  }

  /** A staging buffer filled to capacity can always be advanced. */
  lemma FullNeverNeedsMore(u: seq<Byte>)
    requires |u| >= REASM_CAP
    ensures Try(u).Took?
  {
  }

  // ----- Sent frames come back -----

  /** What dma_send_frame accepts. */
  type SendableFrame = f: WireFrame | MagicKnown(f.magic) && |f.payload| <= MAX_PAYLOAD witness Frame(TMAS, [])

  function Payloads(fs: seq<SendableFrame>): seq<Event> {
    if fs == [] then [] else [Payload(fs[0].payload)] + Payloads(fs[1..])
  }

  lemma TryWire(f: SendableFrame, rest: seq<Byte>)
    ensures Try(Wire(f) + rest) == Took(Payload(f.payload), rest)
  {
    var h := Header(f.magic, |f.payload|);
    var u := Wire(f) + rest;
    HeaderRoundTrip(f.magic, |f.payload|);
    assert u[..8] == h;
    assert u[4..][..4] == h[4..];
    assert Be32Load(u) == f.magic && Length(u) == |f.payload|;
    assert u[HEADER_BYTES..HEADER_BYTES + |f.payload|] == f.payload;
    assert u[HEADER_BYTES + |f.payload|..] == rest;
  }

  /** The payloads of the frames sent, in order, nothing dropped and nothing left. */
  lemma {:induction false} FramesComeBack(fs: seq<SendableFrame>)
    ensures Events(Stream(fs)) == Payloads(fs) && Rest(Stream(fs)) == []
    decreases |fs|
  {
    if fs != [] {
      StreamFront(fs);
      TryWire(fs[0], Stream(fs[1..]));
      FramesComeBack(fs[1..]);
    }
  }

  // ----- The bytes on the wire -----

  /** The bytes of an ASCII tag. */
  function Ascii(tag: string): (b: seq<Byte>)
    requires forall i :: 0 <= i < |tag| ==> tag[i] < 128 as char
    ensures |b| == |tag|
  {
    seq(|tag|, i requires 0 <= i < |tag| => tag[i] as int)
  }

  /** Four bytes are a known magic exactly when they spell one of the three tags. */
  lemma KnownTags(b: seq<Byte>)
    requires |b| == 4
    ensures MagicKnown(Be32Load(b)) <==> b == Ascii("TMAS") || b == Ascii("TMAR") || b == Ascii("TMDC")
  {
  }

  function MagicOf(tag: string): (m: U32)
    ensures MagicKnown(m)
  {
    if tag == "TMAS" then TMAS else if tag == "TMAR" then TMAR else TMDC
  }

  lemma TagBytes(tag: string)
    requires tag in ["TMAS", "TMAR", "TMDC"]
    ensures Be32Store(MagicOf(tag)) == Ascii(tag)
  {
  }

  lemma LengthBytes(n: nat)
    requires n <= MAX_PAYLOAD
    ensures Be32Store(n) == [0, 0, n / 256, n % 256]
  {
  }

  /** A tag, the length with its high byte first, and that many bytes are what is sent for a
      payload, and are taken as that payload. */
  lemma TaggedFrame(tag: string, p: seq<Byte>, rest: seq<Byte>)
    requires tag in ["TMAS", "TMAR", "TMDC"] && |p| <= MAX_PAYLOAD
    ensures var w := Ascii(tag) + [0, 0, |p| / 256, |p| % 256] + p;
      w == Wire(Frame(MagicOf(tag), p)) && Try(w + rest) == Took(Payload(p), rest)
  {
    TagBytes(tag);
    LengthBytes(|p|);
    TryWire(Frame(MagicOf(tag), p), rest);
  }

  // ----- Resynchronisation -----

  /** No known magic starts inside the first n bytes. */
  ghost predicate NoMagicWithin(u: seq<Byte>, n: nat) {
    n + HEADER_BYTES <= |u| && forall i :: 0 <= i < n ==> !MagicKnown(Be32Load(u[i..]))
  }

  function Drops(n: nat): seq<Event> {
    if n == 0 then [] else [BadMagic] + Drops(n - 1)
  }

  lemma NoMagicTail(u: seq<Byte>, n: nat)
    requires n > 0 && NoMagicWithin(u, n)
    ensures NoMagicWithin(u[1..], n - 1) && !MagicKnown(Be32Load(u))
  {
    assert u[0..] == u;
    forall i | 0 <= i < n - 1 ensures !MagicKnown(Be32Load(u[1..][i..])) { assert u[1..][i..] == u[i + 1..]; }
  }

  lemma OneSkipped(u: seq<Byte>)
    requires |u| >= HEADER_BYTES && !MagicKnown(Be32Load(u))
    ensures Events(u) == [BadMagic] + Events(u[1..]) && Rest(u) == Rest(u[1..])
  {
  }

  lemma DropsFirst(n: nat, es: seq<Event>)
    requires n > 0
    ensures Drops(n) + es == [BadMagic] + (Drops(n - 1) + es)
  {
  }

  lemma {:induction false} GarbageIsSkipped(u: seq<Byte>, n: nat)
    requires NoMagicWithin(u, n)
    ensures Events(u) == Drops(n) + Events(u[n..]) && Rest(u) == Rest(u[n..])
    decreases n
  {
    if n == 0 {
      assert u[0..] == u;
    } else {
      NoMagicTail(u, n);
      OneSkipped(u);
      GarbageIsSkipped(u[1..], n - 1);
      assert u[1..][n - 1..] == u[n..];
      DropsFirst(n, Events(u[n..]));
    }
  }

  /** A garbage prefix costs exactly its length in bad-magic drops, and every frame after it
      is recovered. */
  lemma ResyncCost(g: seq<Byte>, fs: seq<SendableFrame>)
    requires NoMagicWithin(g + Stream(fs), |g|)
    ensures Events(g + Stream(fs)) == Drops(|g|) + Payloads(fs) && Rest(g + Stream(fs)) == []
  {
    GarbageIsSkipped(g + Stream(fs), |g|);
    assert (g + Stream(fs))[|g|..] == Stream(fs);
    FramesComeBack(fs);
  }

  // ----- Where every byte went -----

  function Cost(e: Event): nat {
    match e
    case BadMagic => 1
    case BadLength => HEADER_BYTES
    case Payload(p) => HEADER_BYTES + |p|
  }

  /** The statistics counters. */
  datatype Counters = Counters(framesRecvOk: nat, bytesRecv: nat, dropBadMagic: nat, dropBadLength: nat)

  function Count(c: Counters, e: Event): Counters {
    match e
    case BadMagic => c.(dropBadMagic := c.dropBadMagic + 1)
    case BadLength => c.(dropBadLength := c.dropBadLength + 1)
    case Payload(p) => c.(framesRecvOk := c.framesRecvOk + 1, bytesRecv := c.bytesRecv + |p|)
  }

  function Tally(log: seq<Event>): Counters {
    if log == [] then Counters(0, 0, 0, 0) else Count(Tally(log[..|log| - 1]), log[|log| - 1])
  }

  function BytesCounted(c: Counters): nat {
    c.bytesRecv + HEADER_BYTES * c.framesRecvOk + c.dropBadMagic + HEADER_BYTES * c.dropBadLength
  }

  lemma TallyPush(log: seq<Event>, e: Event)
    ensures Tally(log + [e]) == Count(Tally(log), e)
  {
    assert (log + [e])[..|log|] == log;
  }

  function PayloadBytes(log: seq<Event>): nat {
    if log == [] then 0
    else PayloadBytes(log[..|log| - 1]) + match log[|log| - 1] case Payload(p) => |p| case _ => 0
  }

  /** The counters count what their names say. */
  lemma {:induction false} TallyCounts(log: seq<Event>)
    ensures var c := Tally(log);
      && c.dropBadMagic == multiset(log)[BadMagic] && c.dropBadLength == multiset(log)[BadLength]
      && c.framesRecvOk == |log| - multiset(log)[BadMagic] - multiset(log)[BadLength]
      && c.bytesRecv == PayloadBytes(log)
  {
    if log != [] {
      var n := |log| - 1;
      assert log == log[..n] + [log[n]];
      TallyCounts(log[..n]);
    }
  }

  /** The events logged and those still to be found in u are those of the whole stream,
      and every byte of the stream is in a counter or in u. */
  ghost predicate Tracks(log: seq<Event>, u: seq<Byte>, stream: seq<Byte>) {
    && log + Events(u) == Events(stream) && Rest(u) == Rest(stream)
    && |stream| == BytesCounted(Tally(log)) + |u|
  }

  lemma StreamGrows(log: seq<Event>, u: seq<Byte>, stream: seq<Byte>, v: seq<Byte>)
    requires Tracks(log, u, stream)
    ensures Tracks(log, u + v, stream + v)
  {
    ChunksDoNotMatter(u, v);
    ChunksDoNotMatter(stream, v);
    Regroup(log, Events(u), Events(Rest(u) + v));
  }

  lemma Regroup(a: seq<Event>, b: seq<Event>, c: seq<Event>)
    ensures a + (b + c) == (a + b) + c
  {
  }

  lemma OneTaken(log: seq<Event>, u: seq<Byte>, stream: seq<Byte>)
    requires Tracks(log, u, stream) && Try(u).Took?
    ensures Tracks(log + [Try(u).event], Try(u).rest, stream)
  {
    Regroup(log, [Try(u).event], Events(Try(u).rest));
    TallyPush(log, Try(u).event);
    TryCost(u);
  }

  lemma TryCost(u: seq<Byte>)
    requires Try(u).Took?
    ensures |u| == Cost(Try(u).event) + |Try(u).rest|
  {
  }

  /** A drained channel that read garbage and then whole frames has delivered exactly those
      frames, whatever the reads were, and counted exactly the garbage as dropped. */
  lemma DrainedHasEverything(log: seq<Event>, u: seq<Byte>, g: seq<Byte>, fs: seq<SendableFrame>)
    requires (g == [] || NoMagicWithin(g + Stream(fs), |g|))
    requires Tracks(log, u, g + Stream(fs)) && Try(u).NeedMore?
    ensures log == Drops(|g|) + Payloads(fs) && u == []
  {
    if g == [] {
      FramesComeBack(fs);
      assert g + Stream(fs) == Stream(fs);
    } else {
      ResyncCost(g, fs);
    }
    assert log + Events(u) == log;
  }
}
