/** How many bytes `compress_set` spends: one to five per gap, and exactly one per gap
    for a run of consecutive IDs. */
module RocSize {
  import opened Ints
  import opened Errors
  import opened Varint
  import opened Roc
  import opened RocProperties

  /** A non-empty set costs at least one byte per ID plus one for the count, and at most
      five bytes per ID plus the count's varint. */
  lemma PayloadSize(ids: seq<uint32>, universe: uint32)
    requires 0 < |ids| < TWO_TO_THE_64 && CompressSet(ids, universe).Ok?
    ensures |ids| + 1 <= |CompressSet(ids, universe).value| <= |EncodeVarint(|ids|)| + 5 * |ids|
    ensures |CompressSet(ids, universe).value| <= 10 + 5 * |ids|
  {
    CompressLayout(ids, universe);
    EncodeVarintLength(|ids|);
    EncodeVarintLength(ids[0]);
  }

  /** Each ID is one more than the one before it. */
  predicate Consecutive(ids: seq<uint32>) {
    forall i :: 0 <= i < |ids| - 1 ==> ids[i + 1] as int == ids[i] as int + 1
  }

  /** The gaps of consecutive IDs are all one, each stored as the single byte 0x01. */
  lemma {:induction false} ConsecutiveDeltas(ids: seq<uint32>)
    requires Consecutive(ids) && |ids| > 0
    ensures StrictlyIncreasing(ids)
    ensures |EncodeDeltas(ids)| == |ids| - 1
    ensures forall i :: 0 <= i < |ids| - 1 ==> EncodeDeltas(ids)[i] == 0x01
    decreases |ids|
  {
    if |ids| >= 2 {
      assert Consecutive(ids[1..]);
      ConsecutiveDeltas(ids[1..]);
      assert EncodeVarint(ids[1] - ids[0]) == [0x01];
      assert EncodeDeltas(ids) == [0x01] + EncodeDeltas(ids[1..]);
    }
  }

  /** A run of consecutive IDs costs the count, the first ID and one byte per further ID. */
  lemma ConsecutiveIdsSize(ids: seq<uint32>, universe: uint32)
    requires 0 < |ids| < TWO_TO_THE_64 && Consecutive(ids) && AllBelow(ids, universe)
    ensures CompressSet(ids, universe).Ok?
    ensures |CompressSet(ids, universe).value| == |EncodeVarint(|ids|)| + |EncodeVarint(ids[0])| + |ids| - 1
  {
    ConsecutiveDeltas(ids);
    CompressLayout(ids, universe);
  }

  /** When the universe is at most 128^n, every gap takes at most n varint bytes. */
  lemma {:induction false} EncodeDeltasWithin(ids: seq<uint32>, universe: uint32, n: nat)
    requires StrictlyIncreasing(ids) && AllBelow(ids, universe) && |ids| > 0
    requires n >= 1 && universe <= Pow128(n)
    ensures |EncodeDeltas(ids)| <= n * (|ids| - 1)
    decreases |ids|
  {
    if |ids| >= 2 {
      var gap, tail := ids[1] - ids[0], ids[1..];
      assert StrictlyIncreasing(tail) && AllBelow(tail, universe);
      EncodeDeltasWithin(tail, universe, n);
      EncodeVarintFits(gap, n);
      StepBound(|EncodeVarint(gap)|, |EncodeDeltas(tail)|, n, |tail| - 1);
    }
  }

  /** One more gap of at most n bytes adds at most n to the bound. */
  lemma StepBound(a: nat, b: nat, n: nat, k: nat)
    requires a <= n && b <= n * k
    ensures a + b <= n * (k + 1)
  {
  }

  /** With a universe of at most 2^21 IDs (three varint bytes), a set of more than ten
      IDs never takes more bytes than the same IDs stored as `u32`s. */
  lemma SmallUniverseBeatsRaw(ids: seq<uint32>, universe: uint32)
    requires 10 < |ids| < TWO_TO_THE_64 && CompressSet(ids, universe).Ok?
    requires universe <= 0x20_0000
    ensures |CompressSet(ids, universe).value| <= 4 * |ids|
  {
    assert Pow128(3) == 0x20_0000 && Pow128(4) == 0x1000_0000;
    CompressLayout(ids, universe);
    SetNoLargerThanUniverse(ids, universe);
    EncodeVarintFits(|ids|, 4);
    EncodeVarintFits(ids[0], 3);
    EncodeDeltasWithin(ids, universe, 3);
  }

  /** Each ID is `gap` more than the one before it. */
  predicate EvenlySpaced(ids: seq<uint32>, gap: nat) {
    forall i :: 0 <= i < |ids| - 1 ==> ids[i + 1] as int == ids[i] as int + gap
  }

  /** Evenly spaced IDs spend the same number of bytes on every gap. */
  lemma {:induction false} EvenlySpacedDeltas(ids: seq<uint32>, gap: uint32)
    requires EvenlySpaced(ids, gap) && gap > 0 && |ids| > 0
    ensures StrictlyIncreasing(ids)
    ensures |EncodeDeltas(ids)| == (|ids| - 1) * |EncodeVarint(gap)|
    decreases |ids|
  {
    if |ids| >= 2 {
      assert EvenlySpaced(ids[1..], gap);
      EvenlySpacedDeltas(ids[1..], gap);
      EncodeDeltasFront(ids);
      StepCount(|EncodeVarint(gap)|, |ids| - 2);
    }
  }

  /** One more gap of `size` bytes. */
  lemma StepCount(size: nat, k: nat)
    ensures size + k * size == (k + 1) * size
  {
  }

  /** With a large universe more than ten IDs can cost more than their raw four bytes each:
      eleven IDs 2^28 apart take 1 + 1 + 10 * 5 = 52 bytes against 44. */
  lemma WideGapsExceedRaw()
    ensures CompressSet(seq(11, i => i * 0x1000_0000), 0xFFFF_FFFF).Ok?
    ensures |CompressSet(seq(11, i => i * 0x1000_0000), 0xFFFF_FFFF).value| == 52 > 4 * 11
  {
    var ids: seq<uint32> := seq(11, i => i * 0x1000_0000);
    assert EvenlySpaced(ids, 0x1000_0000);
    EvenlySpacedDeltas(ids, 0x1000_0000);
    FiveByteGap();
    assert AllBelow(ids, 0xFFFF_FFFF);
    CompressLayout(ids, 0xFFFF_FFFF);
    EncodeVarintLength(11);
    EncodeVarintLength(0);
  }

  /** 2^28 = 128^4 is the smallest value that needs five varint bytes. */
  lemma FiveByteGap()
    ensures |EncodeVarint(0x1000_0000)| == 5
  {
    EncodeVarintLength(0x1000_0000);
    EncodeVarintFraming(0x1000_0000);
    assert Pow128(4) == 0x1000_0000;
    if |EncodeVarint(0x1000_0000)| <= 4 {
      Pow128Monotone(|EncodeVarint(0x1000_0000)|, 4);
    }
  }
}
