/** The write cursor of the MM builders: one bit at a time, with a sticky overflow flag and
    length fields patched after their payload is written. */
module BitWriter {
  import opened Bits
  import opened WordFields
  import opened BitBuffer

  /** The cursor as a value. */
  datatype Writer = Writer(bits: BitString, pos: nat, overflow: bool)

  /** w is what trying to write x piece by piece after w0 leaves: it overflowed exactly when
      it had already or x does not fit, and otherwise x stands where w0 ended. */
  ghost predicate Wrote(cap: nat, w0: Writer, w: Writer, x: BitString) {
    && |w.bits| == |w0.bits| && w0.pos <= w.pos <= cap <= |w.bits|
    && (w.overflow <==> w0.overflow || w0.pos + |x| > cap)
    && (!w.overflow ==> w.pos == w0.pos + |x| && w.bits == Spliced(w0.bits, w0.pos, x))
  }

  lemma WroteTwice(cap: nat, w0: Writer, w1: Writer, w2: Writer, x: BitString, y: BitString)
    requires Wrote(cap, w0, w1, x) && Wrote(cap, w1, w2, y)
    ensures Wrote(cap, w0, w2, x + y)
  {
    if !w2.overflow {
      SpliceTwice(w0.bits, w0.pos, x, y);
    }
  }

  lemma WroteNothing(cap: nat, w: Writer)
    requires w.pos <= cap <= |w.bits|
    ensures Wrote(cap, w, w, [])
  {
  }

  /** The writer after wbuf_patch_11. */
  function Patched(cap: nat, w: Writer, at: nat, v: nat): Writer
    requires cap <= |w.bits|
  {
    if at + 11 > cap then w.(overflow := true) else w.(bits := Spliced(w.bits, at, ToBits(v, 11)))
  }

  /** A patch that fits changes its eleven bits, highest first, and no other; one that does not
      is an overflow and changes none. */
  lemma PatchChanges(cap: nat, w: Writer, at: nat, v: nat)
    requires cap <= |w.bits|
    ensures var r := Patched(cap, w, at, v);
      && r.pos == w.pos && |r.bits| == |w.bits| && (r.overflow <==> w.overflow || at + 11 > cap)
      && (forall i :: 0 <= i < |w.bits| && (at + 11 > cap || i < at || at + 11 <= i) ==> r.bits[i] == w.bits[i])
      && (at + 11 <= cap ==> r.bits[at..at + 11] == ToBits(v, 11))
  {
  }

  /** Patching the placeholder is as if the value had been written in the first place. */
  lemma PatchFills(cap: nat, w0: Writer, w: Writer, pre: BitString, post: BitString, at: nat, v: nat)
    requires Wrote(cap, w0, w, pre + ToBits(0, 11) + post) && (!w.overflow ==> at == w0.pos + |pre|)
    ensures Wrote(cap, w0, Patched(cap, w, at, v), pre + ToBits(v, 11) + post)
  {
    PatchOnly(cap, w0, w, pre, post, at, ToBits(0, 11), ToBits(v, 11), Patched(cap, w, at, v));
  }

  /** The same for any two strings of eleven bits. */
  lemma PatchOnly(cap: nat, w0: Writer, w: Writer, pre: BitString, post: BitString, at: nat, x: BitString, y: BitString,
                  r: Writer)
    requires |x| == |y| == 11 && Wrote(cap, w0, w, pre + x + post) && (!w.overflow ==> at == w0.pos + |pre|)
    requires r == if at + 11 > cap then w.(overflow := true) else w.(bits := Spliced(w.bits, at, y))
    ensures Wrote(cap, w0, r, pre + y + post)
  {
    if !w.overflow {
      SpliceOver(w0.bits, w0.pos, pre, x, y, post);
    }
  }

  lemma SpliceOver(b: BitString, p: nat, pre: BitString, x: BitString, y: BitString, post: BitString)
    requires |x| == |y| && p + |pre| + |x| + |post| <= |b|
    ensures Spliced(Spliced(b, p, pre + x + post), p + |pre|, y) == Spliced(b, p, pre + y + post)
  {
  }

  /** bits[idx] |= mask or &= ~mask. */
  method SetBit(bits: array<Byte>, idx: nat, bit: nat)
    requires idx < 8 * bits.Length && Fits(bit, 1)
    modifies bits
    ensures Unpack(bits[..]) == Spliced(old(Unpack(bits[..])), idx, ToBits(bit, 1))
  {
    var k, off := idx / 8, idx % 8;
    ghost var before := bits[..];
    WithFieldBits(bits[k], bit, 7 - off, 1);
    var b: Byte := WithField(bits[k], bit, 7 - off, 1);
    bits[k] := b;
    assert bits[..] == before[k := b];
    FragmentUpdate(before, k, b, off, ToBits(bit, 1));
    assert 8 * k + off == idx;
  }

  class WBuf {
    const bits: array<Byte>
    const capBits: nat
    var pos: nat
    var overflow: bool

    ghost predicate Valid()
      reads this
    {
      pos <= capBits <= 8 * bits.Length
    }

    ghost function View(): (w: Writer)
      reads this, bits
    {
      Writer(Unpack(bits[..]), pos, overflow)
    }

    constructor (out: array<Byte>, cap: nat)
      requires cap <= 8 * out.Length
      ensures Valid() && bits == out && capBits == cap && pos == 0 && !overflow
    {
      bits, capBits, pos, overflow := out, cap, 0, false;
    }

    /** The bit loop shared by wbuf_put and wbuf_patch_11. */
    method SetBits(at: nat, v: nat, n: nat)
      requires at + n <= 8 * bits.Length
      modifies bits
      ensures Unpack(bits[..]) == Spliced(old(Unpack(bits[..])), at, ToBits(v, n))
    {
      ghost var before := Unpack(bits[..]);
      LaidNone(before, at, ToBits(v, n));
      for i := 0 to n
        invariant Laid(Unpack(bits[..]), before, at, ToBits(v, n), i)
      {
        SetNext(at, v, n, i, before);
      }
      LaidAll(Unpack(bits[..]), before, at, ToBits(v, n));
    }

    method SetNext(at: nat, v: nat, n: nat, i: nat, ghost before: BitString)
      requires i < n && at + n <= 8 * bits.Length && Laid(Unpack(bits[..]), before, at, ToBits(v, n), i)
      modifies bits
      ensures Laid(Unpack(bits[..]), before, at, ToBits(v, n), i + 1)
    {
      FieldBits(v, n, n - 1 - i, 1);
      LayMore(before, at, ToBits(v, n), i, 1, Unpack(bits[..]));
      SetBit(bits, at + i, Field(v, n - 1 - i, 1));
    }

    /** wbuf_put, after x has been written since w0.  No width is a no-op, and a width of
        more than 64 counts as overflow even when it fits. */
    method Put(v: nat, n: nat, ghost w0: Writer, ghost x: BitString)
      requires Valid() && Wrote(capBits, w0, View(), x)
      modifies this, bits
      ensures Valid() && pos >= old(pos)
      ensures n <= 64 ==> Wrote(capBits, w0, View(), x + ToBits(v, n))
      ensures n > 64 ==> View() == old(View()).(overflow := true)
    {
      ghost var w1 := View();
      if n == 0 {
        assert x + ToBits(v, 0) == x;
        return;
      }
      if n > 64 {
        overflow := true;
        return;
      }
      if pos + n > capBits {
        overflow := true;
      } else {
        SetBits(pos, v, n);
        pos := pos + n;
      }
      WroteTwice(capBits, w0, w1, View(), x, ToBits(v, n));
    }

    /** wbuf_patch_11. */
    method Patch11(at: nat, v: nat)
      requires Valid()
      modifies this`overflow, bits
      ensures Valid() && View() == Patched(capBits, old(View()), at, v)
    {
      if at + 11 > capBits {
        overflow := true;
        return;
      }
      SetBits(at, v, 11);
    }
  }
}
