/** The byte ring of the shared-memory bridge and the five helpers that move bytes
    through it.  head and tail are 32-bit counters that wrap; the two ghost counters say
    how many bytes have ever been pushed and popped. */
module ByteRing {
  import opened Bits
  import opened Frames

  const CAP := 65536

  function WrapAdd(x: U32, n: nat): U32 {
    (x + n) % TWO32
  }

  function WrapSub(x: U32, y: U32): U32 {
    (x - y) % TWO32
  }

  /** The counters wrap at a multiple of the capacity, so a slot is the same either way. */
  lemma SlotOfWrapped(n: nat)
    ensures n % TWO32 % CAP == n % CAP
  {
    var q := n / TWO32;
    assert n == q * TWO32 + n % TWO32;
    assert n == CAP * (q * 65536) + n % TWO32;
  }

  lemma SlotsDiffer(x: nat, y: nat)
    requires x < y < x + CAP
    ensures x % CAP != y % CAP
  {
  }

  lemma UsedIsDifference(h: nat, t: nat)
    requires t <= h < t + TWO32
    ensures WrapSub(h % TWO32, t % TWO32) == h - t
  {
  }

  /** The n bytes from counter value t on. */
  function Window(b: seq<Byte>, t: nat, n: nat): seq<Byte>
    requires |b| == CAP
  {
    seq(n, i requires 0 <= i < n => b[(t + i) % CAP])
  }

  /** The buffer b with src laid down from slot off on, around the end if need be. */
  function Written(b: seq<Byte>, off: nat, src: seq<Byte>): seq<Byte>
    requires |b| == CAP
  {
    seq(CAP, k requires 0 <= k < CAP => if (k - off) % CAP < |src| then src[(k - off) % CAP] else b[k])
  }

  /** Writing at the producer's counter appends to the window and disturbs nothing in it. */
  lemma WriteAppends(b: seq<Byte>, t: nat, h: nat, src: seq<Byte>)
    requires |b| == CAP && t <= h && h + |src| <= t + CAP
    ensures Window(Written(b, h % CAP, src), t, h - t + |src|) == Window(b, t, h - t) + src
  {
    var before, after := Window(b, t, h - t) + src, Window(Written(b, h % CAP, src), t, h - t + |src|);
    forall i | 0 <= i < |after| ensures after[i] == before[i] { SlotOffset(t + i, h); }
  }

  lemma SlotOffset(p: nat, h: nat)
    requires h - CAP <= p < h + CAP
    ensures (p % CAP - h % CAP) % CAP == if p < h then p - h + CAP else p - h
  {
  }

  lemma WrapAddCounts(x: nat, n: nat)
    ensures WrapAdd(x % TWO32, n) == (x + n) % TWO32
  {
    var q, r := x / TWO32, x % TWO32;
    assert x + n == q * TWO32 + (r + n);
    ModPeriod(r + n, q);
  }

  lemma ModPeriod(v: nat, q: nat)
    ensures (q * TWO32 + v) % TWO32 == v % TWO32
  {
  }

  lemma WindowSlice(b: seq<Byte>, t: nat, m: nat, skip: nat, n: nat)
    requires |b| == CAP && skip + n <= m
    ensures Window(b, t, m)[skip..skip + n] == Window(b, t + skip, n)
  {
    var x, y := Window(b, t, m)[skip..skip + n], Window(b, t + skip, n);
    forall i | 0 <= i < n ensures x[i] == y[i] { assert t + (skip + i) == (t + skip) + i; }
  }

  /** A counter and its slot see the same window. */
  lemma WindowFromSlot(b: seq<Byte>, t: nat, n: nat)
    requires |b| == CAP
    ensures Window(b, t, n) == Window(b, t % CAP, n)
  {
    forall i | 0 <= i < n ensures Window(b, t, n)[i] == Window(b, t % CAP, n)[i] { SlotStep(t, i); }
  }

  lemma SlotStep(t: nat, i: nat)
    ensures (t + i) % CAP == (t % CAP + i) % CAP
  {
  }

  class Ring {
    var head: U32
    var tail: U32
    const buf: array<Byte>
    ghost var pushed: nat
    ghost var popped: nat

    ghost predicate Valid()
      reads this
    {
      && buf.Length == CAP
      && head == pushed % TWO32 && tail == popped % TWO32
      && popped <= pushed <= popped + CAP
    }

    ghost function Contents(): (s: seq<Byte>)
      requires Valid()
      reads this, buf
    {
      Window(buf[..], popped, pushed - popped)
    }

    constructor ()
      ensures Valid() && Contents() == [] && fresh(buf)
    {
      head, tail := 0, 0;
      buf := new Byte[CAP](_ => 0);
      pushed, popped := 0, 0;
    }

    method Used() returns (n: U32)
      requires Valid()
      ensures n == |Contents()| <= CAP
    {
      UsedIsDifference(pushed, popped);
      n := WrapSub(head, tail);
    }

    method Free() returns (n: U32)
      requires Valid()
      ensures n == CAP - |Contents()|
    {
      var u := Used();
      n := CAP - u;
    }

    /** memcpy(&buf[off], src, |src|). */
    method CopyIn(off: nat, src: seq<Byte>)
      requires buf.Length == CAP && off + |src| <= CAP
      modifies buf
      ensures forall k :: 0 <= k < CAP ==> buf[k] == if off <= k < off + |src| then src[k - off] else old(buf[k])
    {
      for i := 0 to |src|
        invariant forall k :: 0 <= k < CAP ==> buf[k] == if off <= k < off + i then src[k - off] else old(buf[k])
      {
        buf[off + i] := src[i];
      }
    }

    /** memcpy(dst, &buf[off], n). */
    method CopyOut(off: nat, n: nat) returns (dst: seq<Byte>)
      requires buf.Length == CAP && off + n <= CAP
      ensures dst == buf[off..off + n]
    {
      dst := [];
      for i := 0 to n
        invariant dst == buf[off..off + i]
      {
        dst := dst + [buf[off + i]];
      }
    }

    /** The two-piece copy of ring_push. */
    method StoreAt(off: nat, src: seq<Byte>)
      requires buf.Length == CAP && off < CAP && |src| <= CAP
      modifies buf
      ensures buf[..] == Written(old(buf[..]), off, src)
    {
      var room := CAP - off;
      if |src| <= room {
        CopyIn(off, src);
      } else {
        CopyIn(off, src[..room]);
        CopyIn(0, src[room..]);
      }
    }

    /** The two-piece copy of ring_pop and ring_peek. */
    method LoadAt(off: nat, n: nat) returns (dst: seq<Byte>)
      requires buf.Length == CAP && off < CAP && n <= CAP
      ensures dst == Window(buf[..], off, n)
    {
      var room := CAP - off;
      if n <= room {
        dst := CopyOut(off, n);
      } else {
        var a := CopyOut(off, room);
        var b := CopyOut(0, n - room);
        dst := a + b;
      }
    }

    /** ring_push: the caller has checked that the bytes fit. */
    method Push(src: seq<Byte>)
      requires Valid() && |src| <= CAP - |Contents()|
      modifies this, buf
      ensures Valid() && Contents() == old(Contents()) + src
      ensures tail == old(tail) && popped == old(popped)
    {
      SlotOfWrapped(pushed);
      WrapAddCounts(pushed, |src|);
      WriteAppends(buf[..], popped, pushed, src);
      StoreAt(head % CAP, src);
      head := WrapAdd(head, |src|);
      pushed := pushed + |src|;
    }

    /** ring_peek: the caller has checked that the bytes are there. */
    method Peek(skip: nat, n: nat) returns (dst: seq<Byte>)
      requires Valid() && skip + n <= |Contents()|
      ensures dst == Contents()[skip..skip + n]
    {
      var t := WrapAdd(tail, skip);
      WrapAddCounts(popped, skip);
      SlotOfWrapped(popped + skip);
      WindowSlice(buf[..], popped, pushed - popped, skip, n);
      WindowFromSlot(buf[..], popped + skip, n);
      dst := LoadAt(t % CAP, n);
    }

    /** ring_pop: peek at the front and advance the tail. */
    method Pop(n: nat) returns (dst: seq<Byte>)
      requires Valid() && n <= |Contents()|
      modifies this
      ensures Valid() && dst == old(Contents())[..n] && Contents() == old(Contents())[n..]
      ensures head == old(head) && pushed == old(pushed)
    {
      dst := Peek(0, n);
      WrapAddCounts(popped, n);
      WindowSlice(buf[..], popped, pushed - popped, n, pushed - popped - n);
      tail := WrapAdd(tail, n);
      popped := popped + n;
    }
  }
}
