/** A receive channel of the DMA layer: the staging buffer, compacted in place, and its
    counters.  Two ghost fields remember every byte read and every event; the invariant
    ties them to the stream parser, so it holds after any sequence of calls. */
module DmaChannel {
  import opened Errno
  import opened Bits
  import opened Frames
  import opened Reassembly
  import opened DmaReceive

  class Channel {
    const reasm: array<Byte>
    var used: nat
    var counters: Counters
    ghost var stream: seq<Byte>
    ghost var log: seq<Event>

    ghost predicate Shape()
      reads this
    {
      reasm.Length == REASM_CAP && used <= REASM_CAP
    }

    ghost function Held(): (u: seq<Byte>)
      requires Shape()
      reads this, reasm
      ensures |u| == used
    {
      reasm[..used]
    }

    /** True after any sequence of calls, whatever the reads returned. */
    ghost predicate Valid()
      reads this, reasm
    {
      Shape() && Tracks(log, Held(), stream) && counters == Tally(log)
    }

    constructor ()
      ensures Valid() && used == 0 && stream == [] && log == [] && fresh(reasm)
    {
      reasm := new Byte[REASM_CAP](_ => 0);
      used, counters := 0, Counters(0, 0, 0, 0);
      stream, log := [], [];
      new;
      assert reasm[..0] == [];
    }

    /** reasm_read_one: read(2) into the free part.  A negative result is the errno of a
        failing read, which a full buffer does not even attempt. */
    method ReadOne(pending: seq<Byte>, a: Read) returns (n: int)
      requires Valid()
      modifies this`used, this`stream, reasm
      ensures Valid() && log == old(log)
      ensures
        match a
        case Fails(e) =>
          && n == (if old(used) < REASM_CAP then Negative(e) else 0)
          && stream == old(stream) && Held() == old(Held())
        case Gives(k) =>
          && n == ReadLength(old(Held()), pending, k)
          && stream == old(stream) + pending[..n] && Held() == old(Held()) + pending[..n]
    {
      if used >= reasm.Length {
        return 0;
      }
      match a
      case Fails(e) =>
        n := Negative(e);
      case Gives(k) =>
        var free := reasm.Length - used;
        n := if k < free then k else free;
        n := if |pending| < n then |pending| else n;
        StreamGrows(log, Held(), stream, pending[..n]);
        Append(pending[..n]);
        stream := stream + pending[..n];
    }

    method Append(x: seq<Byte>)
      requires Shape() && used + |x| <= REASM_CAP
      modifies this`used, reasm
      ensures Shape() && Held() == old(Held()) + x
    {
      var at := used;
      for i := 0 to |x|
        invariant used == at && reasm[..at] == old(reasm[..at]) && reasm[at..at + i] == x[..i]
      {
        reasm[at + i] := x[i];
      }
      used := at + |x|;
    }

    /** memmove of everything after the first n bytes to the front. */
    method Compact(n: nat)
      requires Shape() && n <= used
      modifies this`used, reasm
      ensures Shape() && Held() == old(Held())[n..]
    {
      ghost var u := Held();
      var end := used;
      for i := 0 to end - n
        invariant used == end && forall j :: 0 <= j < i ==> reasm[j] == u[n + j]
        invariant forall j :: i <= j < end ==> reasm[j] == u[j]
      {
        reasm[i] := reasm[n + i];
      }
      used := end - n;
      assert Held() == u[n..];
    }

    /** Takes the event e, which is what the parser finds, off the front and counts it. */
    method Advance(e: Event)
      requires Valid() && Cost(e) <= used && Try(Held()) == Took(e, Held()[Cost(e)..])
      modifies this, reasm
      ensures Valid() && stream == old(stream) && Held() == old(Held())[Cost(e)..] && log == old(log) + [e]
    {
      ghost var rest, log' := Held()[Cost(e)..], log + [e];
      TookOne(log, Held(), stream, e, rest);
      counters := Count(counters, e);
      Compact(Cost(e));
      log := log';
    }

    /** reasm_try_extract.  A frame larger than the caller's buffer is refused and kept;
        otherwise exactly one attempt of the stream parser is made. */
    method TryExtract(cap: nat) returns (rc: int, out: seq<Byte>)
      requires Valid()
      modifies this, reasm
      ensures Valid() && stream == old(stream)
      ensures
        var a := Try(old(Held()));
        match a
        case NeedMore => rc == 0 && out == [] && Held() == old(Held()) && log == old(log)
        case Took(e, rest) =>
          if e.Payload? && |e.bytes| > cap then
            rc == -ENOSPC && out == [] && Held() == old(Held()) && log == old(log)
          else
            && Held() == rest && log == old(log) + [e]
            && rc == (if e.Payload? then 1 else -EBADMSG) && out == (if e.Payload? then e.bytes else [])
    {
      out := [];
      if used < HEADER_BYTES {
        return 0, [];
      }
      HeaderIs(Held());
      var magic := Be32Load(reasm[..4]);
      var plen := Be32Load(reasm[4..8]);
      assert reasm[..4] == Held()[..4] && reasm[4..8] == Held()[4..8];
      if !MagicKnown(magic) {
        Advance(BadMagic);
        return -EBADMSG, [];
      }
      if plen > MAX_PAYLOAD {
        Advance(BadLength);
        return -EBADMSG, [];
      }
      var total := HEADER_BYTES + plen;
      if used < total {
        return 0, [];
      }
      if cap < plen {
        return -ENOSPC, [];
      }
      out := reasm[HEADER_BYTES..total];
      assert out == Held()[HEADER_BYTES..total];
      Advance(Payload(out));
      rc := 1;
    }

    /** dma_recv_frame.  polls holds what poll(2) answers on successive rounds. */
    method RecvFrame(cap: nat, pipe: seq<Byte>, polls: seq<Poll>, oneShot: bool)
      returns (rc: int, out: seq<Byte>, pipe': seq<Byte>)
      requires Valid()
      modifies this, reasm
      ensures Valid() && stream + pipe' == old(stream) + pipe
      ensures
        var r := Receive(old(Held()), pipe, polls, cap, oneShot);
        rc == r.rc && out == r.out && Held() == r.held && pipe' == r.pipe && log == old(log) + r.events
    {
      var ends;
      ends, rc, out := Extract(cap, pipe);
      pipe' := pipe;
      if !ends {
        rc, out, pipe' := PollLoop(cap, pipe, polls, oneShot);
      }
    }

    /** The poll and read loop. */
    method PollLoop(cap: nat, pipe: seq<Byte>, polls: seq<Poll>, oneShot: bool)
      returns (rc: int, out: seq<Byte>, pipe': seq<Byte>)
      requires Valid()
      modifies this, reasm
      ensures Valid() && stream + pipe' == old(stream) + pipe
      ensures
        var r := Rounds(old(Held()), pipe, polls, cap, oneShot);
        rc == r.rc && out == r.out && Held() == r.held && pipe' == r.pipe && log == old(log) + r.events
    {
      assert log + [] == log;
      ghost var whole := Rounds(Held(), pipe, polls, cap, oneShot);
      rc, out, pipe' := 0, [], pipe;
      for i := 0 to |polls|
        invariant Valid() && stream + pipe' == old(stream) + pipe && log == old(log) && rc == 0 && out == []
        invariant whole == Rounds(Held(), pipe', polls[i..], cap, oneShot)
      {
        assert polls[i..][0] == polls[i] && polls[i..][1..] == polls[i + 1..];
        var ends;
        ends, rc, out, pipe' := PollRound(cap, pipe', polls[i], oneShot);
        if ends {
          return;
        }
      }
    }

    /** One round of the loop. */
    method PollRound(cap: nat, pipe: seq<Byte>, p: Poll, oneShot: bool)
      returns (ends: bool, rc: int, out: seq<Byte>, pipe': seq<Byte>)
      requires Valid()
      modifies this, reasm
      ensures Valid() && stream + pipe' == old(stream) + pipe
      ensures
        var r := OneRound(old(Held()), pipe, p, cap, oneShot);
        && ends == r.ends && rc == r.result.rc && out == r.result.out && Held() == r.result.held
        && pipe' == r.result.pipe && log == old(log) + r.result.events
      ensures !ends ==> rc == 0 && out == [] && log == old(log)
    {
      assert log + [] == log;
      match p
      case Interrupted => return false, 0, [], pipe;
      case Failed(e) => return true, Negative(e), [], pipe;
      case HungUp => return true, 0, [], pipe;
      case Ready(Fails(e)) =>
        rc := ReadOne(pipe, Fails(e));
        ends, out, pipe' := rc < 0 || oneShot, [], pipe;
      case Ready(Gives(k)) =>
        ends, rc, out, pipe' := ReadRound(cap, pipe, k);
        ends := ends || oneShot;
    }

    /** One read and, when it brought something, one attempt. */
    method ReadRound(cap: nat, pipe: seq<Byte>, k: nat)
      returns (ends: bool, rc: int, out: seq<Byte>, pipe': seq<Byte>)
      requires Valid()
      modifies this, reasm
      ensures Valid() && stream + pipe' == old(stream) + pipe
      ensures
        var n := ReadLength(old(Held()), pipe, k);
        var a := TakeOne(old(Held()) + pipe[..n], pipe[n..], cap);
        && pipe' == pipe[n..] && ends == (n > 0 && Ends(a))
        && Held() == (if ends then a.held else old(Held()) + pipe[..n])
        && log == old(log) + (if ends then a.events else [])
        && (if ends then rc == a.rc && out == a.out else rc == 0 && out == [])
    {
      Reattach(stream, pipe);
      var n := ReadOne(pipe, Gives(k));
      pipe' := pipe[n..];
      ends, rc, out := false, 0, [];
      if n > 0 {
        ends, rc, out := Extract(cap, pipe');
        assert !ends ==> log + [] == log;
      }
    }

    /** The attempt and the returns that follow it. */
    method Extract(cap: nat, ghost pipe: seq<Byte>) returns (ends: bool, rc: int, out: seq<Byte>)
      requires Valid()
      modifies this, reasm
      ensures Valid() && stream == old(stream)
      ensures
        var a := TakeOne(old(Held()), pipe, cap);
        && ends == Ends(a) && rc == a.rc && out == a.out && Held() == a.held && log == old(log) + a.events
      ensures !ends ==> log == old(log) && Held() == old(Held())
    {
      rc, out := TryExtract(cap);
      ends := rc != 0;
      if rc == 1 {
        rc := |out|;
      }
      assert log == old(log) || |log| == |old(log)| + 1;
    }
  }

  lemma Reattach(s: seq<Byte>, p: seq<Byte>)
    ensures forall n {:trigger p[n..]} :: 0 <= n <= |p| ==> (s + p[..n]) + p[n..] == s + p
  {
  }

  lemma TookOne(log: seq<Event>, u: seq<Byte>, stream: seq<Byte>, e: Event, rest: seq<Byte>)
    requires Tracks(log, u, stream) && Try(u) == Took(e, rest)
    ensures Tracks(log + [e], rest, stream) && Tally(log + [e]) == Count(Tally(log), e)
  {
    OneTaken(log, u, stream);
    TallyPush(log, e);
  }

  lemma HeaderIs(u: seq<Byte>)
    requires |u| >= HEADER_BYTES
    ensures Be32Load(u[..4]) == Be32Load(u) && Be32Load(u[4..8]) == Length(u)
  {
  }
}
