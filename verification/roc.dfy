/** The delta + varint set codec of `RocCompressor`: a strictly increasing list of `u32`
    IDs below a caller-supplied universe size is stored as
    varint(count) varint(first ID) varint(gap 1) ... varint(gap count-1),
    and the empty set as no bytes at all. The universe size is not stored. */
module Roc {
  import opened Ints
  import opened Errors
  import opened Varint

  /** Each ID is larger than the one before it, the check `validate_ids` makes. */
  predicate StrictlyIncreasing(ids: seq<uint32>) {
    forall i :: 0 <= i < |ids| - 1 ==> ids[i] < ids[i + 1]
  }

  /** Sorted with no duplicates: every earlier ID is smaller than every later one. */
  predicate SortedDistinct(ids: seq<uint32>) {
    forall i, j :: 0 <= i < j < |ids| ==> ids[i] < ids[j]
  }

  /** Every ID lies in the universe [0, universe). */
  predicate AllBelow(ids: seq<uint32>, universe: int) {
    forall i :: 0 <= i < |ids| ==> ids[i] < universe
  }

  /** `validate_ids`: walks neighbouring pairs from the front and fails with `InvalidInput`
      at the first ID that is not larger than the one before it. */
  function ValidateIds(ids: seq<uint32>): (r: Result<()>)
    ensures r.Ok? <==> StrictlyIncreasing(ids)
    ensures r.Err? ==> r.error == InvalidInput
  {
    if |ids| < 2 then
      Ok(())
    else if ids[1] <= ids[0] then
      Err(InvalidInput)
    else
      ValidateIds(ids[1..])
  }

  /** `ids.iter().max()` on a non-empty list. */
  function MaxId(ids: seq<uint32>): (m: uint32)
    requires |ids| > 0
    ensures exists i :: 0 <= i < |ids| && ids[i] == m
    ensures forall i :: 0 <= i < |ids| ==> ids[i] <= m
  {
    if |ids| == 1 then
      ids[0]
    else
      var rest := MaxId(ids[1..]);
      if ids[0] > rest then ids[0] else rest
  }

  /** The delta loop of `compress_set`: for each ID after the first, the varint of its gap
      to the previous ID. Validation has run, so the `u32` subtraction cannot underflow.
      Every gap fits in a `u32`, so it takes between one and five bytes. */
  function EncodeDeltas(ids: seq<uint32>): (r: seq<uint8>)
    requires StrictlyIncreasing(ids)
    ensures |ids| > 0 ==> |ids| - 1 <= |r| <= 5 * (|ids| - 1)
  {
    if |ids| < 2 then
      []
    else
      EncodeVarintLength(ids[1] - ids[0]);
      EncodeVarint(ids[1] - ids[0]) + EncodeDeltas(ids[1..])
  }

  /** `compress_set`. The length is a `usize`, widened losslessly to `u64` for its varint.
      All-or-nothing: on failure no bytes are produced. */
  function CompressSet(ids: seq<uint32>, universe: uint32): (r: Result<seq<uint8>>)
    requires |ids| < TWO_TO_THE_64
    ensures r.Ok? <==> StrictlyIncreasing(ids) && AllBelow(ids, universe)
    ensures r.Err? ==> r.error == InvalidInput
    ensures |ids| == 0 ==> r == Ok([])
  {
    var valid :- ValidateIds(ids);
    if |ids| == 0 then
      Ok([])
    else if MaxId(ids) >= universe then
      Err(InvalidInput)
    else
      Ok(EncodeVarint(|ids|) + EncodeVarint(ids[0]) + EncodeDeltas(ids))
  }

  /** `last + gap as u32`: the gap is cut to its low 32 bits and the sum wraps at 2^32,
      the release-build behaviour of `+` on `u32`. Cutting the gap first changes nothing,
      and a sum that fits is exact. */
  function WrappingAdd(last: uint32, gap: uint64): (r: uint32)
    ensures r == (last + gap) % TWO_TO_THE_32
    ensures last + gap < TWO_TO_THE_32 ==> r == last + gap
  {
    (last + gap % TWO_TO_THE_32) % TWO_TO_THE_32
  }

  /** The delta loop of `decompress_set`, run on `buf`, the bytes after the first ID:
      decodes `remaining` gaps and rebuilds each ID from the one before it, failing the
      moment an ID is outside the universe. Returns the IDs and the number of bytes read,
      so the source's `offset` after the loop is the start of `buf` plus that count. */
  function DecodeDeltas(buf: seq<uint8>, last: uint32, remaining: nat, universe: uint32)
    : (r: Result<(seq<uint32>, nat)>)
    ensures r.Ok? ==>
              && |r.value.0| == remaining
              && AllBelow(r.value.0, universe)
              && remaining <= r.value.1 <= |buf|
              && r.value.1 <= 9 * remaining
    ensures r.Err? ==> r.error == DecompressionFailed
    decreases remaining
  {
    if remaining == 0 then
      Ok(([], 0))
    else
      var gap :- DecodeVarint(buf);
      var next := WrappingAdd(last, gap.0);
      if next >= universe then
        Err(DecompressionFailed)
      else
        var tail :- DecodeDeltas(buf[gap.1..], next, remaining - 1, universe);
        Ok(([next] + tail.0, gap.1 + tail.1))
  }

  /** `decompress_set`. No bytes decode to the empty set, and so does a count of zero,
      in which case whatever follows the count is ignored. Otherwise the IDs are decoded
      from the bytes after the count. */
  function DecompressSet(compressed: seq<uint8>, universe: uint32): (r: Result<seq<uint32>>)
    ensures |compressed| == 0 ==> r == Ok([])
    ensures r.Err? ==> r.error == DecompressionFailed
    ensures r.Ok? ==> AllBelow(r.value, universe)
    ensures r.Ok? && |r.value| > 0 ==>
              && DecodeVarint(compressed).Ok?
              && DecodeVarint(compressed).value.0 == |r.value|
              && |r.value| < |compressed|
  {
    if |compressed| == 0 then
      Ok([])
    else
      var count :- DecodeVarint(compressed);
      if count.0 == 0 then
        Ok([])
      else
        DecodeIds(compressed[count.1..], count.0, universe)
  }

  /** The part of `decompress_set` after a non-zero count: the first ID, checked against
      the universe, then `count - 1` gaps; the IDs come back only when the gaps end
      exactly where `body` does. */
  function DecodeIds(body: seq<uint8>, count: nat, universe: uint32): (r: Result<seq<uint32>>)
    requires count > 0
    ensures r.Err? ==> r.error == DecompressionFailed
    ensures r.Ok? ==> AllBelow(r.value, universe) && |r.value| == count <= |body|
  {
    var first :- DecodeVarint(body);
    if first.0 >= universe then
      Err(DecompressionFailed)
    else
      var rest :- DecodeDeltas(body[first.1..], first.0, count - 1, universe);
      if first.1 + rest.1 < |body| then
        Err(DecompressionFailed)
      else
        Ok([first.0] + rest.0)
  }
}
