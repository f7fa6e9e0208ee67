/** The SCH/F channel end to end: sch_f_encode on one side, descrambling and
    decode_channel on the other. */
module SchF {
  import opened Bits
  import opened Crc
  import opened CrcRegisters
  import opened Trellis
  import opened Viterbi
  import opened Rcpc
  import opened CodeDistance
  import opened Interleaver
  import opened Scrambler

  // ----- The frame -----

  /** Type-3 bits: the message, its complemented CRC-16 and a four-bit zero tail. */
  function Frame(m: BitString): BitString {
    m + Checksum(Poly16(), m) + [false, false, false, false]
  }

  lemma TailDrainsMemory(v: BitString)
    ensures MemoryAfter(v + [false, false, false, false]) == Memory(false, false, false, false)
  {
    var f := false;
    assert v + [f, f, f, f] == v + [f] + [f] + [f] + [f];
    CodeWordAppend(v, f);
    CodeWordAppend(v + [f], f);
    CodeWordAppend(v + [f] + [f], f);
    CodeWordAppend(v + [f] + [f] + [f], f);
  }

  lemma FrameTerminates(m: BitString)
    ensures End(Frame(m)) == 0
  {
    TailDrainsMemory(m + Checksum(Poly16(), m));
    EndIsMemory(Frame(m));
  }

  // ----- The encoder -----

  /** on is what sch_f_encode sends for the message m. */
  ghost predicate OnAir(m: BitString, init: Word, on: BitString) {
    |m| == 268 && exists z :: Carries(N, A, z, CodeWord(Frame(m))) && on == Scrambled(z, init)
  }

  method SchFEncode(info: BitString, scrambleInit: Word) returns (on: BitString)
    requires |info| == 268
    ensures OnAir(info, scrambleInit, on)
  {
    var crc := Crc16Ccitt(info);
    var t3 := info + crc + [false, false, false, false];
    var rcpc := Encode(t3);
    assert |rcpc| == 432;
    var inter := InterleaveA103(rcpc);
    on := Scramble(inter, scrambleInit);
  }

  // ----- The decoder -----

  function Prefix(s: BitString, n: nat): BitString {
    if n <= |s| then s[..n] else s
  }

  /** x is a K-symbol block that some message of infoLen bits could have produced with
      e errors and f erasures, 2e + f < 4. */
  ghost predicate Reachable(x: seq<Sym>, K: nat, a: nat, infoLen: nat, m: BitString, z: BitString) {
    && |x| == K && |m| == infoLen && Carries(K, a, z, CodeWord(Frame(m)))
    && 2 * Errors(x, z) + Erasures(x) < 4
  }

  /** decode_channel: for every block geometry with an invertible interleaver step, the
      message comes back with a good CRC from any block within reach of it. */
  method DecodeChannel(x: seq<Sym>, K: nat, a: nat, infoLen: nat)
      returns (crcOk: bool, info: BitString, decoded: BitString)
    requires |x| >= K && K % 3 == 0
    ensures decoded == Trace(Tables(Depunctured(Deinterleaved(x, K, a))), K / 3 * 2, 0)
    ensures crcOk <==> Accepts(Poly16(), Prefix(decoded, infoLen + 16))
    ensures info == Prefix(Prefix(decoded, infoLen + 16), infoLen)
    ensures forall m, z, b :: Inverse(K, a, b) && Reachable(x, K, a, infoLen, m, z) ==> crcOk && info == m
  {
    crcOk, info, decoded := DecodeBlock(x, K, a, infoLen);
    DecodesAll(x, K, a, infoLen, decoded);
  }

  method DecodeBlock(x: seq<Sym>, K: nat, a: nat, infoLen: nat)
      returns (crcOk: bool, info: BitString, decoded: BitString)
    requires |x| >= K && K % 3 == 0
    ensures decoded == Trace(Tables(Depunctured(Deinterleaved(x, K, a))), K / 3 * 2, 0)
    ensures crcOk <==> Accepts(Poly16(), Prefix(decoded, infoLen + 16))
    ensures info == Prefix(Prefix(decoded, infoLen + 16), infoLen)
  {
    var type4 := Deinterleave(x, K, a);
    decoded := DecodeSymbols(type4);
    var infoCrc := Prefix(decoded, infoLen + 16);
    crcOk := Crc16CheckDll(infoCrc);
    info := Prefix(infoCrc, infoLen);
  }

  method DecodeSymbols(y: seq<Sym>) returns (decoded: BitString)
    requires |y| % 3 == 0
    ensures decoded == Trace(Tables(Depunctured(y)), |y| / 3 * 2, 0)
  {
    var type3 := Depuncture(y);
    decoded := Decode(type3);
    assert |type3| / 4 == |y| / 3 * 2;
  }

  lemma DecodesAll(x: seq<Sym>, K: nat, a: nat, infoLen: nat, decoded: BitString)
    requires |x| >= K && K % 3 == 0 && decoded == Trace(Tables(Depunctured(Deinterleaved(x, K, a))), K / 3 * 2, 0)
    ensures forall m, z, b :: Inverse(K, a, b) && Reachable(x, K, a, infoLen, m, z) ==>
      Accepts(Poly16(), Prefix(decoded, infoLen + 16)) && Prefix(Prefix(decoded, infoLen + 16), infoLen) == m
  {
    forall m, z, b | Inverse(K, a, b) && Reachable(x, K, a, infoLen, m, z)
      ensures Accepts(Poly16(), Prefix(decoded, infoLen + 16)) && Prefix(Prefix(decoded, infoLen + 16), infoLen) == m
    {
      DecodesTo(x, K, a, infoLen, m, z, b);
    }
  }

  lemma DecodesTo(x: seq<Sym>, K: nat, a: nat, infoLen: nat, m: BitString, z: BitString, b: nat)
    requires K % 3 == 0 && Inverse(K, a, b) && Reachable(x, K, a, infoLen, m, z)
    ensures var decoded := Trace(Tables(Depunctured(Deinterleaved(x, K, a))), K / 3 * 2, 0);
      var infoCrc := Prefix(decoded, infoLen + 16);
      Accepts(Poly16(), infoCrc) && Prefix(infoCrc, infoLen) == m
  {
    var t := Frame(m);
    var y := Deinterleaved(x, K, a);
    assert CodeLength(|t|) == K;
    DeinterleavedErrors(x, z, CodeWord(t), K, a, b);
    FrameTerminates(m);
    DecodeCorrects(y, t);
    var crc := Checksum(Poly16(), m);
    assert Prefix(t, infoLen + 16) == m + crc;
    assert Prefix(m + crc, infoLen) == m;
    Crc16AcceptsIffChecksum(m, crc);
  }

  // ----- Over the air -----

  lemma {:induction false} SentHasNoErasures(c: BitString)
    ensures Erasures(Sent(c)) == 0
  {
    if c != [] {
      assert Sent(c)[..|c| - 1] == Sent(c[..|c| - 1]);
      SentHasNoErasures(c[..|c| - 1]);
    }
  }

  /** Descrambling moves no error. */
  lemma DescramblingKeepsErrors(on: BitString, sent: BitString, init: Word)
    requires |on| == |sent|
    ensures Hamming(Descrambled(on, init), Descrambled(sent, init)) == Hamming(on, sent)
  {
    var a, b := Sent(Descrambled(on, init)), Descrambled(sent, init);
    ErrorsCount(Sent(on), sent);
    ErrorsCount(a, b);
    assert ErrorSet(a, b) == ErrorSet(Sent(on), sent);
  }

  method DecodeSchF(x: seq<Sym>) returns (crcOk: bool, info: BitString)
    requires |x| == N
    ensures forall m, z :: Reachable(x, N, A, 268, m, z) ==> crcOk && info == m
  {
    var decoded;
    assert Inverse(N, A, A_INVERSE);
    crcOk, info, decoded := DecodeChannel(x, N, A, 268);
  }

  method Descramble(on: BitString, init: Word) returns (type5: BitString)
    ensures type5 == Descrambled(on, init)
  {
    var key := ScramblerSeq(init, |on|);
    type5 := Xor(on, key);
  }

  /** on differs in at most one bit from what the encoder sends for m. */
  ghost predicate WithinOneFlip(on: BitString, init: Word, m: BitString) {
    exists sent :: OnAir(m, init, sent) && |sent| == |on| && Hamming(on, sent) <= 1
  }

  /** Descrambling followed by decode_channel(432, 103, 268). */
  method Receive(on: BitString, init: Word) returns (crcOk: bool, info: BitString)
    requires |on| == N
    ensures forall m :: init != Zeros(32) && WithinOneFlip(on, init, m) ==> crcOk && info == m
  {
    var type5 := Descramble(on, init);
    crcOk, info := DecodeSchF(Sent(type5));
    forall m | init != Zeros(32) && WithinOneFlip(on, init, m) ensures crcOk && info == m {
      var sent :| OnAir(m, init, sent) && |sent| == |on| && Hamming(on, sent) <= 1;
      var z := ReachableOnAir(on, init, m, sent);
    }
  }

  lemma ReachableOnAir(on: BitString, init: Word, m: BitString, sent: BitString) returns (z: BitString)
    requires |on| == |sent| == 432 && init != Zeros(32) && OnAir(m, init, sent) && Hamming(on, sent) <= 1
    ensures Reachable(Sent(Descrambled(on, init)), N, A, 268, m, z)
  {
    z :| Carries(N, A, z, CodeWord(Frame(m))) && sent == Scrambled(z, init);
    DescrambleUndoesIffSeeded(z, init);
    DescramblingKeepsErrors(on, sent, init);
    SentHasNoErasures(Descrambled(on, init));
  }

  /** The encoder's block is determined by the message and the seed. */
  lemma OnAirUnique(m: BitString, init: Word, on: BitString, on': BitString)
    requires OnAir(m, init, on) && OnAir(m, init, on')
    ensures on == on' && |on| == 432
  {
    var z :| Carries(N, A, z, CodeWord(Frame(m))) && on == Scrambled(z, init);
    var z' :| Carries(N, A, z', CodeWord(Frame(m))) && on' == Scrambled(z', init);
    CarriesUnique(z, z', CodeWord(Frame(m)));
  }

  /** What the encoder sends for a message comes back from the receiver with a good CRC,
      even after one on-air bit is flipped. */
  method RoundTrip(info: BitString, init: Word, flip: nat) returns (crcOk: bool, got: BitString)
    requires |info| == 268 && init != Zeros(32) && flip < 432
    ensures crcOk && got == info
  {
    var sent := SchFEncode(info, init);
    OnAirUnique(info, init, sent, sent);
    var on := sent[flip := !sent[flip]];
    FlipIsOneError(sent, flip);
    assert WithinOneFlip(on, init, info);
    crcOk, got := Receive(on, init);
  }

  lemma FlipIsOneError(sent: BitString, flip: nat)
    requires flip < |sent|
    ensures Hamming(sent[flip := !sent[flip]], sent) == 1
  {
    var x := Sent(sent[flip := !sent[flip]]);
    ErrorsCount(x, sent);
    assert ErrorSet(x, sent) == {flip};
  }
}
