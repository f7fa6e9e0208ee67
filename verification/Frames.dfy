/** The wire format of IF_DMA_API_v1 frames: a 4-byte magic, a 4-byte payload length,
    both big-endian, then the payload. */
module Frames {
  import opened Bits

  const TWO32 := 0x1_0000_0000

  type U32 = x: int | 0 <= x < TWO32

  datatype Frame = Frame(magic: U32, payload: seq<Byte>)

  function Be32Store(v: U32): (b: seq<Byte>)
    ensures |b| == 4
  {
    [v / 256 / 256 / 256, v / 256 / 256 % 256, v / 256 % 256, v % 256]
  }

  function Be32Load(b: seq<Byte>): U32
    requires |b| >= 4
  {
    var b0: int, b1: int, b2: int, b3: int := b[0], b[1], b[2], b[3];
    ((b0 * 256 + b1) * 256 + b2) * 256 + b3
  }

  lemma Be32RoundTrip(v: U32)
    ensures Be32Load(Be32Store(v)) == v
  {
  }

  function Header(magic: U32, length: U32): (h: seq<Byte>)
    ensures |h| == 8
  {
    Be32Store(magic) + Be32Store(length)
  }

  lemma HeaderRoundTrip(magic: U32, length: U32)
    ensures Be32Load(Header(magic, length)) == magic
    ensures Be32Load(Header(magic, length)[4..]) == length
  {
    Be32RoundTrip(magic);
    Be32RoundTrip(length);
    assert Header(magic, length)[4..] == Be32Store(length);
    assert forall k :: 0 <= k < 4 ==> Header(magic, length)[k] == Be32Store(magic)[k];
  }

  /** A frame as it travels. */
  function Wire(f: Frame): (w: seq<Byte>)
    requires |f.payload| < TWO32
    ensures |w| == 8 + |f.payload|
  {
    Header(f.magic, |f.payload|) + f.payload
  }

  /** A frame whose length fits its field. */
  type WireFrame = f: Frame | |f.payload| < TWO32 witness Frame(0, [])

  /** Frames sent one after the other. */
  function Stream(fs: seq<WireFrame>): seq<Byte> {
    if fs == [] then [] else Stream(fs[..|fs| - 1]) + Wire(fs[|fs| - 1])
  }

  lemma {:induction false} StreamFront(fs: seq<WireFrame>)
    requires fs != []
    ensures Stream(fs) == Wire(fs[0]) + Stream(fs[1..])
    decreases |fs|
  {
    var n := |fs| - 1;
    if n > 0 {
      StreamFront(fs[..n]);
      assert fs[..n][1..] == fs[1..][..n - 1];
    }
  }
}
