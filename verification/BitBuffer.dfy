/** The MSB-first bit cursor.  Reads and writes walk a head fragment, whole bytes and a
    tail fragment; both are proved against the buffer seen as one bit string. */
module BitBuffer {
  import opened Bits
  import opened WordFields

  /** A buffer as its users see it. */
  datatype Cursor = Cursor(bits: BitString, pos: nat, end: nat, expands: bool)

  /** The cursor after writing x. */
  ghost function After(c: Cursor, x: BitString): (d: Cursor)
    requires c.pos + |x| <= |c.bits|
    ensures |d.bits| == |c.bits| && d.pos == c.pos + |x|
  {
    var p := c.pos + |x|;
    Cursor(Spliced(c.bits, c.pos, x), p, if p > c.end then p else c.end, c.expands)
  }

  lemma AfterTwice(c: Cursor, x: BitString, y: BitString)
    requires c.pos + |x| + |y| <= |c.bits|
    ensures After(After(c, x), y) == After(c, x + y)
  {
    SpliceTwice(c.bits, c.pos, x, y);
  }

  /** What was written at the cursor is what stands there. */
  lemma AfterHolds(c: Cursor, x: BitString)
    requires c.pos + |x| <= |c.bits|
    ensures After(c, x).bits[c.pos..c.pos + |x|] == x
  {
  }

  class BitBuffer {
    const buffer: array<Byte>
    const capBits: nat
    const start: nat
    var pos: nat
    var end: nat
    var autoexpand: bool

    ghost predicate Valid()
      reads this
    {
      capBits <= 8 * buffer.Length && start <= pos <= end <= capBits
    }

    /** The whole buffer as bits. */
    ghost function Contents(): (b: BitString)
      reads this, buffer
    {
      Unpack(buffer[..])
    }

    /** The bits still to be read. */
    ghost function Ahead(): (b: BitString)
      requires Valid()
      reads this, buffer
      ensures |b| == end - pos
    {
      Contents()[pos..end]
    }

    ghost function View(): (c: Cursor)
      reads this, buffer
    {
      Cursor(Contents(), pos, end, autoexpand)
    }

    /** What bb_put_bits asserts before n more bits are written. */
    ghost predicate HasRoom(n: nat)
      reads this
    {
      pos + n <= end || (autoexpand && pos + n <= capBits)
    }

    /** bb_init. */
    constructor (buf: array<Byte>, lenBits: nat)
      requires lenBits <= 8 * buf.Length
      ensures Valid() && buffer == buf && capBits == end == lenBits && start == pos == 0 && !autoexpand
    {
      buffer, capBits, start, pos, end, autoexpand := buf, lenBits, 0, 0, lenBits, false;
    }

    /** bb_init_autoexpand. */
    constructor Expanding(buf: array<Byte>, cap: nat)
      requires cap <= 8 * buf.Length
      ensures Valid() && buffer == buf && capBits == cap && start == pos == end == 0 && autoexpand
    {
      buffer, capBits, start, pos, end, autoexpand := buf, cap, 0, 0, 0, true;
    }

    /** (byte >> shift) & mask on one byte. */
    method ReadFragment(k: nat, off: nat, take: nat) returns (c: nat)
      requires k < buffer.Length && off + take <= 8
      ensures Reads(c, Contents(), 8 * k + off, 8 * k + off + take)
    {
      FragmentReads(buffer[..], k, off, take);
      c := Field(buffer[k], 8 - off - take, take);
    }

    method ReadByte(k: nat) returns (c: nat)
      requires k < buffer.Length
      ensures Reads(c, Contents(), 8 * k, 8 * k + 8)
    {
      UnpackByte(buffer[..], k);
      ByteFits(buffer[k]);
      c := buffer[k];
    }

    /** The whole bytes and the tail of bb_read_at, from the byte boundary 8k on. */
    method ReadAligned(at: nat, k0: nat, n: nat, r: nat) returns (result: nat)
      requires at <= 8 * k0 <= at + n <= 8 * buffer.Length
      requires Reads(r, Contents(), at, 8 * k0)
      ensures Reads(result, Contents(), at, at + n)
    {
      ghost var b := Contents();
      result := r;
      var k, rem := k0, at + n - 8 * k0;
      while rem >= 8
        invariant 0 <= rem && at <= 8 * k && 8 * k + rem == at + n
        invariant Reads(result, b, at, 8 * k)
      {
        var byte := ReadByte(k);
        ReadMore(b, at, 8 * k, 8 * k + 8, result, byte);
        result := Or(Shl(result, 8), byte);
        k, rem := k + 1, rem - 8;
      }
      if rem > 0 {
        result := ReadTail(at, k, rem, result);
      }
    }

    method ReadTail(at: nat, k: nat, rem: nat, r: nat) returns (result: nat)
      requires k < buffer.Length && 0 < rem < 8 && Reads(r, Contents(), at, 8 * k)
      ensures Reads(result, Contents(), at, 8 * k + rem)
    {
      var tail := ReadFragment(k, 0, rem);
      ReadMore(Contents(), at, 8 * k, 8 * k + rem, r, tail);
      result := Or(Shl(r, rem), tail);
    }

    /** bb_read_at. */
    method ReadAt(at: nat, n: nat) returns (result: nat)
      requires n > 0 && at + n <= 8 * buffer.Length
      ensures Reads(result, Contents(), at, at + n)
    {
      var k, head := at / 8, at % 8;
      if head == 0 {
        ReadsNothing(Contents(), at);
        result := ReadAligned(at, k, n, 0);
      } else if 8 - head < n {
        result := ReadFragment(k, head, 8 - head);
        result := ReadAligned(at, k + 1, n, result);
      } else {
        result := ReadFragment(k, head, n);
      }
    }

    /** *p = (*p & ~mask) | bits, on one byte. */
    method WriteFragment(k: nat, off: nat, c: nat, take: nat)
      requires k < buffer.Length && off + take <= 8 && Fits(c, take)
      modifies buffer
      ensures Contents() == Spliced(old(Contents()), 8 * k + off, ToBits(c, take))
    {
      ghost var before := buffer[..];
      var shift := 8 - off - take;
      WithFieldBits(buffer[k], c, shift, take);
      var b: Byte := WithField(buffer[k], c, shift, take);
      buffer[k] := b;
      assert buffer[..] == before[k := b];
      FragmentUpdate(before, k, b, off, ToBits(c, take));
    }

    method WriteByte(k: nat, c: Byte)
      requires k < buffer.Length
      modifies buffer
      ensures Contents() == Spliced(old(Contents()), 8 * k, ToBits(c, 8))
    {
      ghost var before := buffer[..];
      UnpackUpdate(before, k, c);
      buffer[k] := c;
      assert buffer[..] == before[k := c];
    }

    /** Bits done .. done + take of the n-bit value v = x, into byte k. */
    method WritePart(k: nat, off: nat, v: nat, n: nat, done: nat, take: nat, ghost before: BitString, ghost at: nat,
                     ghost x: BitString)
      requires done + take <= n && k < buffer.Length && off + take <= 8 && at + done == 8 * k + off
      requires x == ToBits(v, n) && Laid(Contents(), before, at, x, done)
      modifies buffer
      ensures Laid(Contents(), before, at, x, done + take)
    {
      var c := Field(v, n - done - take, take);
      FieldBits(v, n, n - done - take, take);
      LayAt(before, at, x, done, take, ToBits(c, take), Contents(), 8 * k + off);
      WriteFragment(k, off, c, take);
    }

    method WriteWhole(k: nat, v: nat, n: nat, done: nat, ghost before: BitString, ghost at: nat, ghost x: BitString)
      requires done + 8 <= n && k < buffer.Length && at + done == 8 * k
      requires x == ToBits(v, n) && Laid(Contents(), before, at, x, done)
      modifies buffer
      ensures Laid(Contents(), before, at, x, done + 8)
    {
      ByteOf(v, n, done);
      var c := Field(v, n - done - 8, 8);
      LayAt(before, at, x, done, 8, ToBits(c, 8), Contents(), 8 * k);
      WriteByte(k, c);
    }

    /** The whole bytes and the tail of bb_write_at, from the byte boundary 8k on. */
    method WriteAligned(at: nat, k0: nat, v: nat, n: nat, ghost before: BitString, ghost x: BitString)
      requires at <= 8 * k0 <= at + n <= 8 * buffer.Length
      requires x == ToBits(v, n) && Laid(Contents(), before, at, x, 8 * k0 - at)
      modifies buffer
      ensures Laid(Contents(), before, at, x, n)
    {
      var k, rem := k0, at + n - 8 * k0;
      while rem >= 8
        invariant 0 <= rem && at <= 8 * k && 8 * k + rem == at + n
        invariant Laid(Contents(), before, at, x, n - rem)
      {
        WriteWhole(k, v, n, n - rem, before, at, x);
        k, rem := k + 1, rem - 8;
      }
      if rem > 0 {
        WritePart(k, 0, v, n, n - rem, rem, before, at, x);
      }
    }

    /** bb_write_at. */
    method WriteAt(at: nat, v: nat, n: nat)
      requires n > 0 && at + n <= 8 * buffer.Length
      modifies buffer
      ensures Contents() == Spliced(old(Contents()), at, ToBits(v, n))
    {
      ghost var before, x := Contents(), ToBits(v, n);
      LaidNone(before, at, x);
      var k, head := at / 8, at % 8;
      if head == 0 {
        WriteAligned(at, k, v, n, before, x);
      } else if 8 - head < n {
        WritePart(k, head, v, n, 0, 8 - head, before, at, x);
        WriteAligned(at, k + 1, v, n, before, x);
      } else {
        WritePart(k, head, v, n, 0, n, before, at, x);
      }
      LaidAll(Contents(), before, at, x);
    }

    /** bb_put_bits: the asserted demands on the caller are its precondition. */
    method PutBits(v: nat, n: nat)
      requires Valid() && 1 <= n <= 32 && Fits(v, n) && HasRoom(n)
      modifies this, buffer
      ensures Valid() && View() == After(old(View()), ToBits(v, n))
    {
      var needEnd := pos + n;
      if needEnd > end {
        end := needEnd;
      }
      WriteAt(pos, v, n);
      pos := pos + n;
    }

    /** bb_get_bits: an underrun reads 0 and does not move. */
    method GetBits(n: nat) returns (v: nat)
      requires Valid() && 1 <= n <= 32
      modifies this`pos
      ensures Valid()
      ensures n > old(|Ahead()|) ==> v == 0 && pos == old(pos)
      ensures n <= old(|Ahead()|) ==> pos == old(pos) + n && Ahead() == old(Ahead())[n..]
      ensures n <= old(|Ahead()|) ==> Fits(v, n) && ToBits(v, n) == old(Ahead())[..n]
    {
      if pos + n > end {
        return 0;
      }
      v := ReadAt(pos, n);
      SliceOfSlice(Contents(), pos, end, 0, n);
      SliceOfSlice(Contents(), pos, end, n, end - pos - n);
      pos := pos + n;
    }

    /** bb_seek_bits. */
    method Seek(p: nat)
      requires Valid() && start + p <= end
      modifies this`pos
      ensures Valid() && pos == start + p
    {
      pos := start + p;
    }
  }

  /** r is the unsigned value of the bits lo .. hi of b. */
  ghost predicate Reads(r: nat, b: BitString, lo: nat, hi: nat) {
    lo <= hi <= |b| && Fits(r, hi - lo) && ToBits(r, hi - lo) == b[lo..hi]
  }

  /** Reading where an n-bit value was written returns it, and every field that does
      not overlap it reads as before. */
  lemma ReadAfterWrite(b: BitString, at: nat, v: nat, n: nat, lo: nat, hi: nat, r: nat)
    requires at + n <= |b| && Fits(v, n) && Reads(r, Spliced(b, at, ToBits(v, n)), lo, hi)
    ensures lo == at && hi == at + n ==> r == v
    ensures hi <= at || at + n <= lo ==> Reads(r, b, lo, hi)
  {
    var s := Spliced(b, at, ToBits(v, n));
    if lo == at && hi == at + n {
      assert s[at..at + n] == ToBits(v, n);
      ToBitsInjective(r, v, n);
    }
    if hi <= at || at + n <= lo {
      assert s[lo..hi] == b[lo..hi];
    }
  }

  lemma ReadsNothing(b: BitString, at: nat)
    requires at <= |b|
    ensures Reads(0, b, at, at)
  {
  }

  /** (r << t) | c continues a read by t bits. */
  lemma ReadMore(b: BitString, lo: nat, mid: nat, hi: nat, r: nat, c: nat)
    requires Reads(r, b, lo, mid) && Reads(c, b, mid, hi)
    ensures Reads(Or(Shl(r, hi - mid), c), b, lo, hi)
  {
    AppendField(r, mid - lo, c, hi - mid);
    assert b[lo..hi] == b[lo..mid] + b[mid..hi];
    assert hi - lo == (mid - lo) + (hi - mid);
  }

  /** The first done bits of x have been laid over b from position at on. */
  ghost predicate Laid(now: BitString, b: BitString, at: nat, x: BitString, done: nat) {
    at + |x| <= |b| && done <= |x| && now == Spliced(b, at, x[..done])
  }

  lemma ByteOf(v: nat, n: nat, done: nat)
    requires done + 8 <= n
    ensures var c := Field(v, n - done - 8, 8); c < 256 && ToBits(c, 8) == ToBits(v, n)[done..done + 8]
  {
    FieldBits(v, n, n - done - 8, 8);
    ByteFits(Field(v, n - done - 8, 8));
  }

  lemma LaidNone(b: BitString, at: nat, x: BitString)
    requires at + |x| <= |b|
    ensures Laid(b, b, at, x, 0)
  {
  }

  lemma LaidAll(now: BitString, b: BitString, at: nat, x: BitString)
    requires Laid(now, b, at, x, |x|)
    ensures now == Spliced(b, at, x)
  {
    assert x[..|x|] == x;
  }

  /** The same at a position p of its own name. */
  lemma LayAt(b: BitString, at: nat, x: BitString, done: nat, t: nat, y: BitString, now: BitString, p: nat)
    requires Laid(now, b, at, x, done) && done + t <= |x| && y == x[done..done + t] && p == at + done
    ensures |y| == t && p + t <= |now| && Laid(Spliced(now, p, y), b, at, x, done + t)
  {
    LayMore(b, at, x, done, t, now);
  }

  lemma LayMore(b: BitString, at: nat, x: BitString, done: nat, t: nat, now: BitString)
    requires Laid(now, b, at, x, done) && done + t <= |x|
    ensures Laid(Spliced(now, at + done, x[done..done + t]), b, at, x, done + t)
  {
    SpliceTwice(b, at, x[..done], x[done..done + t]);
    assert x[..done + t] == x[..done] + x[done..done + t];
  }

  lemma FragmentReads(s: seq<Byte>, k: nat, off: nat, take: nat)
    requires k < |s| && off + take <= 8
    ensures Reads(Field(s[k], 8 - off - take, take), Unpack(s), 8 * k + off, 8 * k + off + take)
  {
    UnpackByte(s, k);
    FieldReads(s[k], Unpack(s), 8 * k, off, take);
  }

  /** The same in any string that has the byte's bits at lo .. lo + 8. */
  lemma FieldReads(v: nat, b: BitString, lo: nat, off: nat, take: nat)
    requires lo + 8 <= |b| && b[lo..lo + 8] == ToBits(v, 8) && off + take <= 8
    ensures Reads(Field(v, 8 - off - take, take), b, lo + off, lo + off + take)
  {
    FieldBits(v, 8, 8 - off - take, take);
    SliceOfSlice(b, lo, lo + 8, off, take);
  }

  lemma SliceOfSlice(b: BitString, lo: nat, hi: nat, off: nat, take: nat)
    requires lo + off + take <= hi <= |b|
    ensures b[lo..hi][off..off + take] == b[lo + off..lo + off + take]
  {
    var x, y := b[lo..hi][off..off + take], b[lo + off..lo + off + take];
    forall i | 0 <= i < take ensures x[i] == y[i] {
      assert x[i] == b[lo..hi][off + i];
    }
  }

  lemma FragmentUpdate(s: seq<Byte>, k: nat, c: Byte, off: nat, x: BitString)
    requires k < |s| && off + |x| <= 8
    requires ToBits(c, 8) == ToBits(s[k], 8)[..off] + x + ToBits(s[k], 8)[off + |x|..]
    ensures Unpack(s[k := c]) == Spliced(Unpack(s), 8 * k + off, x)
  {
    UnpackByte(s, k);
    UnpackUpdate(s, k, c);
    FragmentSplice(Unpack(s), k, off, ToBits(s[k], 8), x);
  }

  lemma FragmentSplice(b: BitString, k: nat, off: nat, byte: BitString, x: BitString)
    requires 8 * k + 8 <= |b| && b[8 * k..8 * k + 8] == byte && off + |x| <= 8
    ensures Spliced(b, 8 * k, byte[..off] + x + byte[off + |x|..]) == Spliced(b, 8 * k + off, x)
  {
    assert byte[..off] == b[8 * k..8 * k + off];
    assert byte[off + |x|..] == b[8 * k + off + |x|..8 * k + 8];
  }
}
