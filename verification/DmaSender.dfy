/** The transmit side of the DMA layer: header and payload are written to a pipe that may
    take fewer bytes than offered, be interrupted, or fail. */
module DmaSender {
  import opened Errno
  import opened Bits
  import opened Frames
  import opened Reassembly

  /** What one write(2) does: takes up to n bytes, is interrupted, or fails. */
  datatype Write = Wrote(n: nat) | Interrupted | Failed(errno: ErrorCode)

  /** How a write loop for n bytes ends: its return value, the bytes written, the answers
      left.  Past the end of the answers the pipe takes everything. */
  datatype Ending = Ending(rc: int, written: nat, left: seq<Write>)

  function WriteLoop(n: nat, answers: seq<Write>): (r: Ending)
    ensures r.written <= n && (r.rc == 0 ==> r.written == n)
    decreases |answers|
  {
    if n == 0 then Ending(0, 0, answers)
    else if answers == [] then Ending(0, n, [])
    else
      match answers[0]
      case Interrupted => WriteLoop(n, answers[1..])
      case Failed(e) => Ending(Negative(e), 0, answers[1..])
      case Wrote(m) =>
        var k := if m < n then m else n;
        var r := WriteLoop(n - k, answers[1..]);
        r.(written := k + r.written)
  }

  /** A loop that fails returns the errno of a write that failed, and only then fails. */
  lemma {:induction false} FailureIsReported(n: nat, answers: seq<Write>)
    ensures WriteLoop(n, answers).rc <= 0
    ensures WriteLoop(n, answers).rc != 0 ==>
      exists e: ErrorCode :: Failed(e) in answers && WriteLoop(n, answers).rc == Negative(e)
    decreases |answers|
  {
    if n > 0 && answers != [] && !answers[0].Failed? {
      var k := if answers[0].Wrote? then (if answers[0].n < n then answers[0].n else n) else 0;
      FailureIsReported(n - k, answers[1..]);
    }
  }

  /** The bytes that writes take before one fails. */
  function TakenBefore(answers: seq<Write>): nat {
    if answers == [] || answers[0].Failed? then 0
    else (if answers[0].Wrote? then answers[0].n else 0) + TakenBefore(answers[1..])
  }

  /** What the first failing write returns; 0 when none fails. */
  function FirstFailure(answers: seq<Write>): int {
    if answers == [] then 0 else if answers[0].Failed? then Negative(answers[0].errno) else FirstFailure(answers[1..])
  }

  /** A loop writes everything unless a write fails first, whose errno it then returns; what it
      wrote is just what the writes before took. */
  lemma {:induction false} WriteLoopMeans(n: nat, answers: seq<Write>)
    ensures var r := WriteLoop(n, answers);
      if FirstFailure(answers) != 0 && TakenBefore(answers) < n
      then r.rc == FirstFailure(answers) && r.written == TakenBefore(answers)
      else r.rc == 0 && r.written == n && FirstFailure(r.left) == FirstFailure(answers)
    decreases |answers|
  {
    if n > 0 && answers != [] && !answers[0].Failed? {
      var k := if answers[0].Wrote? then (if answers[0].n < n then answers[0].n else n) else 0;
      WriteLoopMeans(n - k, answers[1..]);
    }
  }

  /** The return value of dma_send_frame and how much of the frame was written. */
  datatype Sent = Sent(rc: int, written: nat)

  function Sending(payload: nat, answers: seq<Write>): (r: Sent)
    ensures r.written <= HEADER_BYTES + payload && (r.rc == 0 ==> r.written == HEADER_BYTES + payload)
  {
    var h := WriteLoop(HEADER_BYTES, answers);
    if h.rc != 0 then Sent(h.rc, h.written)
    else
      var p := WriteLoop(payload, h.left);
      Sent(p.rc, HEADER_BYTES + p.written)
  }

  /** A send fails exactly when it leaves the frame unfinished, and then with the errno of the
      first write that failed. */
  lemma SendingMeans(payload: nat, answers: seq<Write>)
    ensures var r := Sending(payload, answers);
      && (r.rc == 0 <==> r.written == HEADER_BYTES + payload)
      && (r.rc != 0 ==> r.rc == FirstFailure(answers))
      && (FirstFailure(answers) == 0 ==> r.rc == 0)
  {
    WriteLoopMeans(HEADER_BYTES, answers);
    WriteLoopMeans(payload, WriteLoop(HEADER_BYTES, answers).left);
  }

  class Sender {
    const magic: U32
    var pipe: seq<Byte>
    var framesSendOk: nat
    var bytesSend: nat

    constructor (m: U32)
      ensures magic == m && pipe == [] && framesSendOk == bytesSend == 0
    {
      magic, pipe, framesSendOk, bytesSend := m, [], 0, 0;
    }

    method WriteAll(x: seq<Byte>, answers: seq<Write>) returns (rc: int, left: seq<Write>)
      modifies this`pipe
      ensures var r := WriteLoop(|x|, answers);
        rc == r.rc && left == r.left && pipe == old(pipe) + x[..r.written]
    {
      ghost var r := WriteLoop(|x|, answers);
      var off: nat := 0;
      left := answers;
      while off < |x| && left != []
        invariant off <= |x| && pipe == old(pipe) + x[..off]
        invariant var t := WriteLoop(|x| - off, left); r == t.(written := off + t.written)
        decreases |left|
      {
        var a := left[0];
        left := left[1..];
        match a
        case Interrupted =>
        case Failed(e) =>
          return Negative(e), left;
        case Wrote(n) =>
          var m := if n < |x| - off then n else |x| - off;
          Longer(old(pipe), x, off, m);
          pipe := pipe + x[off..off + m];
          off := off + m;
      }
      Longer(old(pipe), x, off, |x| - off);
      pipe := pipe + x[off..];
      rc := 0;
    }

    /** dma_send_frame: an oversized payload is refused before anything is written; otherwise
        a prefix of the frame is written, all of it exactly when 0 is returned. */
    method SendFrame(payload: seq<Byte>, answers: seq<Write>) returns (rc: int)
      modifies this
      ensures |payload| > MAX_PAYLOAD ==> rc == -EMSGSIZE && pipe == old(pipe)
      ensures |payload| <= MAX_PAYLOAD ==>
        var r := Sending(|payload|, answers);
        rc == r.rc && pipe == old(pipe) + Wire(Frame(magic, payload))[..r.written]
      ensures framesSendOk == old(framesSendOk) + Bit(rc == 0)
      ensures bytesSend == old(bytesSend) + if rc == 0 then |payload| else 0
    {
      if |payload| > MAX_PAYLOAD {
        return -EMSGSIZE;
      }
      ghost var p := pipe;
      var hdr := Header(magic, |payload|);
      var left;
      rc, left := WriteAll(hdr, answers);
      HeaderPart(hdr, payload, WriteLoop(HEADER_BYTES, answers).written);
      if rc != 0 {
        return;
      }
      ghost var before := left;
      rc, left := WriteAll(payload, left);
      TornPayload(p, hdr, payload, WriteLoop(|payload|, before).written);
      if rc != 0 {
        return;
      }
      framesSendOk := framesSendOk + 1;
      bytesSend := bytesSend + |payload|;
    }
  }

  lemma HeaderPart(hdr: seq<Byte>, payload: seq<Byte>, k: nat)
    requires k <= |hdr|
    ensures (hdr + payload)[..k] == hdr[..k]
  {
  }

  lemma Longer(p: seq<Byte>, x: seq<Byte>, off: nat, m: nat)
    requires off + m <= |x|
    ensures (p + x[..off]) + x[off..off + m] == p + x[..off + m]
    ensures off + m == |x| ==> (p + x[..off]) + x[off..] == p + x
  {
  }

  lemma TornPayload(p: seq<Byte>, hdr: seq<Byte>, payload: seq<Byte>, k: nat)
    requires k <= |payload|
    ensures (p + hdr) + payload[..k] == p + (hdr + payload)[..|hdr| + k]
  {
    assert (hdr + payload)[..|hdr| + k] == hdr + payload[..k];
  }
}
