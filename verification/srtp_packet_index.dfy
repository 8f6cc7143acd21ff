/** The SRTP packet index of section 3.3.1 of RFC 3711: the rollover
    counter (ROC) times 2^16 plus the RTP sequence number. The relay
    increments the ROC whenever a sequence number is lower than the one
    before it (`AsWritten`); the section intends it to count wraps of the
    sequence number, so that a packet's index does not depend on the order
    packets are handed over (`Corrected`, the estimate of Appendix A of
    RFC 3711 with the counter kept at the highest index). */
module SrtpPacketIndex {
  import opened Bytes
  import opened SrtpStreamContext

  datatype Variant = AsWritten | Corrected

  /** `RollOverCounter++` on a C# `int`: it wraps at 2^31. */
  function Increment(x: int32): (r: int32)
    ensures x < 0x7FFF_FFFF ==> r == x + 1
  {
    if x == 0x7FFF_FFFF then -0x8000_0000 else x + 1
  }

  /** `RollOverCounter << 16 | SequenceNumber` in 32-bit arithmetic: the
      counter's low 16 bits above the sequence number. */
  function Index(roc: int32, sn: uint16): (i: int32)
    ensures 0 <= roc < 0x8000 ==> i == roc * TWO16 + sn
    ensures i % TWO16 == sn
  {
    ToInt32((roc % TWO16) * TWO16 + sn)
  }

  /** The outcome of one step: the updated context, the ROC the packet is
      sent under, and its index. */
  datatype Step = Step(context: StreamContext, roc: int32, index: int32)

  /** `DetermineSrtpPacketIndex` as written: any decrease of the sequence
      number increments the counter; the last sequence number is always
      replaced. */
  function AsWrittenStep(c: StreamContext, sn: uint16): (s: Step)
    ensures s.context == c.(rollOverCounter := s.roc, previousSequenceNumber := sn)
    ensures s.roc == (if sn < c.previousSequenceNumber then Increment(c.rollOverCounter) else c.rollOverCounter)
    ensures s.index == Index(s.roc, sn)
  {
    var roc := if sn - c.previousSequenceNumber < 0 then Increment(c.rollOverCounter) else c.rollOverCounter;
    Step(c.(rollOverCounter := roc, previousSequenceNumber := sn), roc, Index(roc, sn))
  }

  /** The 48-bit index a counter and a sequence number stand for. */
  function FullIndex(roc: int, sn: uint16): int
  {
    roc * TWO16 + sn
  }

  /** The counter Appendix A of RFC 3711 guesses for `sn`, from the highest
      index seen so far: one more when `sn` is far below the highest
      sequence number (the sequence wrapped), one less when it is far above
      (a late packet from before a wrap), which never goes below zero. */
  function EstimateRoc(c: StreamContext, sn: uint16): int32
  {
    var roc, last := c.rollOverCounter, c.previousSequenceNumber;
    if last < 0x8000 then
      if sn - last > 0x8000 && roc > 0 then roc - 1 else roc
    else
      if last - 0x8000 > sn then Increment(roc) else roc
  }

  /** The corrected step: the estimated counter gives the index, and the
      context moves only when the index is past the highest one. */
  function CorrectedStep(c: StreamContext, sn: uint16): (s: Step)
    ensures s.index == Index(s.roc, sn)
    ensures s.context == c || s.context == c.(rollOverCounter := s.roc, previousSequenceNumber := sn)
  {
    var v := EstimateRoc(c, sn);
    var advances := FullIndex(v, sn) > FullIndex(c.rollOverCounter, c.previousSequenceNumber);
    var next := if advances then c.(rollOverCounter := v, previousSequenceNumber := sn) else c;
    Step(next, v, Index(v, sn))
  }

  function NextIndex(v: Variant, c: StreamContext, sn: uint16): Step
  {
    if v == AsWritten then AsWrittenStep(c, sn) else CorrectedStep(c, sn)
  }

  function Abs(x: int): nat { if x < 0 then -x else x }

  /** The corrected counter picks, among all non-negative counters, the one
      whose index lies closest to the highest index seen; past the first
      2^15 indices that one is never more than 2^15 away. */
  lemma CorrectedIsClosest(c: StreamContext, sn: uint16, k: nat)
    requires 0 <= c.rollOverCounter < 0x7FFF_FFFF
    ensures var s := CorrectedStep(c, sn);
            var high := FullIndex(c.rollOverCounter, c.previousSequenceNumber);
            && 0 <= s.roc
            && (high >= 0x8000 ==> Abs(FullIndex(s.roc, sn) - high) <= 0x8000)
            && Abs(FullIndex(s.roc, sn) - high) <= Abs(FullIndex(k, sn) - high)
  {
    var v: int := CorrectedStep(c, sn).roc;
    var roc, last := c.rollOverCounter as int, c.previousSequenceNumber as int;
    var high := FullIndex(roc, last);
    var d := FullIndex(v, sn) - high;
    assert -0x8000 <= d <= 0x8000 || (v == 0 && d > 0 && high < 0x8000) by {
      if last < 0x8000 {
        if sn - last > 0x8000 && roc > 0 {
          assert d == sn - last - 0x1_0000;
        } else {
          assert d == sn - last;
        }
      } else {
        if last - 0x8000 > sn {
          assert d == 0x1_0000 + sn - last;
        } else {
          assert d == sn - last;
        }
      }
    }
    var t := k - v;
    assert FullIndex(k, sn) - high == d + t * 0x1_0000;
    if t > 0 {
      assert t * 0x1_0000 >= 0x1_0000;
    } else if t < 0 {
      assert t * 0x1_0000 <= -0x1_0000;
    }
  }

  /** The corrected context always holds the highest index seen. */
  lemma CorrectedKeepsHighest(c: StreamContext, sn: uint16)
    requires 0 <= c.rollOverCounter < 0x7FFF_FFFF
    ensures var s := CorrectedStep(c, sn);
            var before := FullIndex(c.rollOverCounter, c.previousSequenceNumber);
            var after := FullIndex(s.context.rollOverCounter, s.context.previousSequenceNumber);
            after == if FullIndex(s.roc, sn) > before then FullIndex(s.roc, sn) else before
  {
  }

  /** For a stream handed over in order, the two steps agree: the relay's
      rule only goes wrong on reordering. */
  lemma InOrderAgrees(c: StreamContext, sn: uint16)
    requires 0 <= c.rollOverCounter < 0x7FFF_FFFF
    requires sn == (c.previousSequenceNumber + 1) % TWO16
    ensures AsWrittenStep(c, sn) == CorrectedStep(c, sn)
  {
  }

  /** The indices of a run of sequence numbers from a fresh context. */
  function Indices(v: Variant, c: StreamContext, seqs: seq<uint16>): (r: seq<int32>)
    ensures |r| == |seqs|
    decreases |seqs|
  {
    if |seqs| == 0 then []
    else
      var s := NextIndex(v, c, seqs[0]);
      [s.index] + Indices(v, s.context, seqs[1..])
  }

  /** The wrap example: 65534, 65535, 0, 1 get the indices 65534 to 65537
      under either rule. */
  lemma WrapExample(v: Variant, ssrc: uint32)
    ensures Indices(v, NewContext(ssrc), [65534, 65535, 0, 1]) == [65534, 65535, 65536, 65537]
  {
    var c0 := NewContext(ssrc);
    var s1 := NextIndex(v, c0, 65534);
    var s2 := NextIndex(v, s1.context, 65535);
    var s3 := NextIndex(v, s2.context, 0);
    var s4 := NextIndex(v, s3.context, 1);
    assert s1.index == 65534 && s1.context.rollOverCounter == 0;
    assert s2.index == 65535 && s2.context.rollOverCounter == 0;
    assert s3.index == 65536 && s3.context.rollOverCounter == 1;
    assert s4.index == 65537;
    assert [65535, 0, 1][1..] == [0, 1] && [0, 1][1..] == [1];
  }

  /** As written, a packet handed over one place late bumps the counter:
      sequence numbers 10 then 9 give the second packet index 65545, and
      every later packet keeps the extra 2^16. */
  lemma AsWrittenReorderBumpsRoc(ssrc: uint32)
    ensures Indices(AsWritten, NewContext(ssrc), [10, 9, 11]) == [10, 65545, 65547]
  {
    var c0 := NewContext(ssrc);
    var s1 := AsWrittenStep(c0, 10);
    var s2 := AsWrittenStep(s1.context, 9);
    assert s2.roc == 1;
    var s3 := AsWrittenStep(s2.context, 11);
    assert [9, 11][1..] == [11];
  }

  /** Corrected, the late packet keeps its own index. */
  lemma CorrectedReorderKeepsIndex(ssrc: uint32)
    ensures Indices(Corrected, NewContext(ssrc), [10, 9, 11]) == [10, 9, 11]
  {
    var c0 := NewContext(ssrc);
    var s1 := CorrectedStep(c0, 10);
    var s2 := CorrectedStep(s1.context, 9);
    assert s2.roc == 0 && s2.context == s1.context;
    var s3 := CorrectedStep(s2.context, 11);
    assert [9, 11][1..] == [11];
  }
}
