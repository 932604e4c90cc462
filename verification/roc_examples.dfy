/** Concrete inputs: the cases the repository's unit tests exercise, and the edge cases
    of `decompress_set` on bytes the encoder never produces. */
module RocExamples {
  import opened Ints
  import opened Errors
  import opened Varint
  import opened Roc
  import opened RocProperties
  import opened RocSize

  /** Unsorted, duplicated and out-of-universe IDs are refused. */
  lemma InvalidInputsRejected()
    ensures CompressSet([5, 1, 10], 1000) == Err(InvalidInput)
    ensures CompressSet([1, 5, 5, 10], 1000) == Err(InvalidInput)
    ensures CompressSet([1000], 1000) == Err(InvalidInput)
  {
    assert !StrictlyIncreasing([5, 1, 10]) by {
      assert [5, 1, 10][0] >= [5, 1, 10][1];
    }
    assert !StrictlyIncreasing([1, 5, 5, 10]) by {
      assert [1, 5, 5, 10][1] >= [1, 5, 5, 10][2];
    }
    assert !AllBelow([1000], 1000) by {
      assert [1000][0] >= 1000;
    }
  }

  /** A value below 0x80 is one varint byte, itself. */
  lemma ByteVarint(b: uint8, rest: seq<uint8>)
    requires b < 0x80
    ensures EncodeVarint(b) == [b]
    ensures DecodeVarint([b] + rest) == Ok((b, 1))
  {
    VarintRoundTrip(b, rest);
  }

  /** A single ID: the count 1, then the ID itself, and back. */
  lemma SingleId()
    ensures CompressSet([42], 1000) == Ok([0x01, 0x2A])
    ensures DecompressSet([0x01, 0x2A], 1000) == Ok([42])
  {
    ByteVarint(1, []);
    ByteVarint(42, []);
    assert StrictlyIncreasing([42]) && AllBelow([42], 1000);
    CompressLayout([42], 1000);
    assert EncodeDeltas([42]) == [];
    assert [0x01] + ([0x2A] + []) == [0x01, 0x2A];
    RoundTrip([42], 1000);
  }

  /** The repository's round-trip case. */
  lemma SixIds()
    ensures CompressSet([1, 5, 10, 20, 50, 100], 1000).Ok?
    ensures DecompressSet(CompressSet([1, 5, 10, 20, 50, 100], 1000).value, 1000) == Ok([1, 5, 10, 20, 50, 100])
  {
    var ids: seq<uint32> := [1, 5, 10, 20, 50, 100];
    assert StrictlyIncreasing(ids);
    RoundTrip(ids, 1000);
  }

  /** The exact bytes for three IDs: count 3, first ID 1, gaps 4 and 5. */
  lemma ThreeIds()
    ensures CompressSet([1, 5, 10], 1000) == Ok([0x03, 0x01, 0x04, 0x05])
  {
    var ids: seq<uint32> := [1, 5, 10];
    assert StrictlyIncreasing(ids);
    ByteVarint(3, []);
    ByteVarint(1, []);
    ByteVarint(4, []);
    ByteVarint(5, []);
    assert ids[1..] == [5, 10];
    assert EncodeDeltas([5, 10]) == [0x05];
    assert EncodeDeltas(ids) == [0x04, 0x05];
    CompressLayout(ids, 1000);
    assert [0x03] + ([0x01] + [0x04, 0x05]) == [0x03, 0x01, 0x04, 0x05];
  }

  /** A count of zero ends decoding: what follows it is not looked at. */
  lemma ZeroCountIgnoresRest()
    ensures DecompressSet([0x00, 0xFF], 1000) == Ok([])
  {
  }

  /** Two IDs, both one-byte varints being read as such: the second is the first plus the
      gap, wrapping at 2^32, and must fit the universe. */
  lemma TwoIds(first: uint8, gapBytes: seq<uint8>, gap: uint64, universe: uint32)
    requires first < 0x80 && first < universe
    requires DecodeVarint(gapBytes) == Ok((gap, |gapBytes|)) && WrappingAdd(first, gap) < universe
    ensures DecompressSet([0x02, first] + gapBytes, universe) == Ok([first as uint32, WrappingAdd(first, gap)])
  {
    var body := [first] + gapBytes;
    var next := WrappingAdd(first, gap);
    ByteVarint(2, body);
    assert [0x02, first] + gapBytes == [0x02] + body;
    assert ([0x02] + body)[1..] == body;
    DecompressSetReadsCount([0x02] + body, universe, 2, 1);
    ByteVarint(first, gapBytes);
    assert body[1..] == gapBytes;
    DecodeDeltasLaterSucceeds(gapBytes, first, next, 1, universe, gap, |gapBytes|, [], 0);
    assert [next] + [] == [next];
    DecodeIdsReads(body, 2, universe, first, 1, [next], |gapBytes|);
    assert [first as uint32] + [next] == [first as uint32, next];
  }

  /** A zero gap is accepted, giving a repeated ID. */
  lemma ZeroGapAccepted()
    ensures DecompressSet([0x02, 0x05, 0x00], 10) == Ok([5, 5])
  {
    ByteVarint(0, []);
    assert [0x00] + [] == [0x00];
    TwoIds(5, [0x00], 0, 10);
  }

  /** A gap of 2^32 - 1 wraps around, giving a smaller ID. */
  lemma WrappingGapAccepted()
    ensures DecompressSet([0x02, 0x05, 0xFF, 0xFF, 0xFF, 0xFF, 0x0F], 10) == Ok([5, 4])
  {
    var gap: seq<uint8> := [0xFF, 0xFF, 0xFF, 0xFF, 0x0F];
    LargestU32Varint();
    VarintRoundTrip(0xFFFF_FFFF, []);
    assert gap + [] == gap;
    TwoIds(5, gap, 0xFFFF_FFFF, 10);
  }

  /** The largest `u32` takes all five varint bytes. */
  lemma LargestU32Varint()
    ensures EncodeVarint(0xFFFF_FFFF) == [0xFF, 0xFF, 0xFF, 0xFF, 0x0F]
  {
    EncodeVarintStep(0xFFFF_FFFF, 0xFF, 0x1FF_FFFF);
    EncodeVarintStep(0x1FF_FFFF, 0xFF, 0x3_FFFF);
    EncodeVarintStep(0x3_FFFF, 0xFF, 0x7FF);
    EncodeVarintStep(0x7FF, 0xFF, 0x0F);
    ByteVarint(0x0F, []);
  }

  /** A continuation byte followed by 0x00 is a padded varint, which the decoder takes. */
  lemma PaddedVarint(b: uint8, rest: seq<uint8>)
    requires b >= 0x80
    ensures DecodeVarint([b, 0x00] + rest) == Ok((b % 0x80, 2))
  {
    var buf := [b, 0x00] + rest;
    assert buf[1..] == [0x00] + rest;
    assert DecodeGroups([0x00] + rest, 1) == Ok((0, 1));
    DecodeGroupsStep(buf, 0, 0, 1);
  }

  /** The decoder takes padded varints the encoder never writes, for the count too. */
  lemma NonCanonicalVarints()
    ensures DecodeVarint([0x80, 0x00]) == Ok((0, 2))
    ensures DecompressSet([0x81, 0x00, 0x07], 10) == Ok([7])
  {
    PaddedVarint(0x80, []);
    assert [0x80, 0x00] + [] == [0x80, 0x00];
    PaddedVarint(0x81, [0x07]);
    assert [0x81, 0x00] + [0x07] == [0x81, 0x00, 0x07];
    assert [0x81, 0x00, 0x07][2..] == [0x07] + [];
    DecompressSetReadsCount([0x81, 0x00, 0x07], 10, 1, 2);
    ByteVarint(7, []);
    DecodeIdsReads([0x07], 1, 10, 7, 1, [], 0);
  }

  /** A tenth varint byte is refused even when it would end the varint. */
  lemma TenthByteRejected()
    ensures DecodeVarint([0x80, 0x80, 0x80, 0x80, 0x80, 0x80, 0x80, 0x80, 0x80, 0x01]) == Err(DecompressionFailed)
  {
  }

  /** The IDs 0 to 99 take 101 bytes: the count, the first ID and 99 gaps of one byte.
      Against their 400 bytes as `u32`s that is a ratio of 400/101, above 2. */
  lemma HundredConsecutiveIds()
    ensures CompressSet(seq(100, i => i), 1000).Ok?
    ensures |CompressSet(seq(100, i => i), 1000).value| == 101
  {
    var ids: seq<uint32> := seq(100, i => i);
    ConsecutiveIdsSize(ids, 1000);
    assert EncodeVarint(100) == [100];
    assert EncodeVarint(0) == [0];
  }
}
