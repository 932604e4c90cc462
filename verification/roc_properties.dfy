/** What the set codec promises: decompression inverts compression, detects a
    universe that is too small, refuses bytes appended to or cut from a payload. */
module RocProperties {
  import opened Ints
  import opened Errors
  import opened Varint
  import opened Roc

  /* ---------------------------------------------------------------------------
     Validation
     --------------------------------------------------------------------------- */

  /** Checking neighbouring pairs, as `validate_ids` does, is the same as asking for a
      sorted list without duplicates. */
  lemma IncreasingIffSortedDistinct(ids: seq<uint32>)
    ensures StrictlyIncreasing(ids) <==> SortedDistinct(ids)
  {
    if StrictlyIncreasing(ids) {
      forall i, j | 0 <= i < j < |ids|
        ensures ids[i] < ids[j]
      {
        IncreasingChain(ids, i, j);
      }
    }
  }

  lemma {:induction false} IncreasingChain(ids: seq<uint32>, i: nat, j: nat)
    requires StrictlyIncreasing(ids) && i < j < |ids|
    ensures ids[i] < ids[j]
    decreases j - i
  {
    if j > i + 1 {
      IncreasingChain(ids, i, j - 1);
    }
  }

  /** `validate_ids` accepts exactly the sorted lists without duplicates, and
      `compress_set` exactly those that also fit the universe. */
  lemma ValidateIdsAcceptsSets(ids: seq<uint32>, universe: uint32)
    requires |ids| < TWO_TO_THE_64
    ensures ValidateIds(ids).Ok? <==> SortedDistinct(ids)
    ensures CompressSet(ids, universe).Ok? <==> SortedDistinct(ids) && AllBelow(ids, universe)
  {
    IncreasingIffSortedDistinct(ids);
  }

  /** The i-th ID of an increasing list is at least i. */
  lemma {:induction false} IncreasingAtLeastIndex(ids: seq<uint32>, i: nat)
    requires StrictlyIncreasing(ids) && i < |ids|
    ensures ids[i] >= i
    decreases i
  {
    if i > 0 {
      IncreasingAtLeastIndex(ids, i - 1);
    }
  }

  /** A set within [0, universe) has at most `universe` IDs. */
  lemma SetNoLargerThanUniverse(ids: seq<uint32>, universe: uint32)
    requires StrictlyIncreasing(ids) && AllBelow(ids, universe)
    ensures |ids| <= universe
  {
    if |ids| > 0 {
      IncreasingAtLeastIndex(ids, |ids| - 1);
    }
  }

  /* ---------------------------------------------------------------------------
     One turn of the gap loop
     --------------------------------------------------------------------------- */

  /** The turns of the gap loop rebuild `ids` exactly when the turns after the first
      rebuild `ids[1..]`, and all of `ids` fits the universe. */
  lemma DecodeDeltasPrepend(buf: seq<uint8>, last: uint32, ids: seq<uint32>, universe: uint32,
                            gap: uint64, used: nat, end: nat)
    requires |ids| > 0
    requires DecodeVarint(buf) == Ok((gap, used)) && ids[0] == WrappingAdd(last, gap)
    requires var r := DecodeDeltas(buf[used..], ids[0], |ids| - 1, universe);
             && (r.Ok? <==> AllBelow(ids[1..], universe))
             && (r.Ok? ==> r.value.0 == ids[1..] && r.value.1 == end)
    ensures var r := DecodeDeltas(buf, last, |ids|, universe);
            && (r.Ok? <==> AllBelow(ids, universe))
            && (r.Ok? ==> r.value.0 == ids && r.value.1 == used + end)
  {
    AllBelowFront(ids, universe);
    if ids[0] < universe && AllBelow(ids[1..], universe) {
      DecodeDeltasLaterSucceeds(buf, last, ids[0], |ids|, universe, gap, used, ids[1..], end);
    } else {
      DecodeDeltasLaterFails(buf, last, ids[0], |ids|, universe, gap, used);
    }
  }

  /** A turn of the gap loop in front of later turns that succeed, succeeds. */
  lemma DecodeDeltasLaterSucceeds(buf: seq<uint8>, last: uint32, next: uint32, remaining: nat,
                                  universe: uint32, gap: uint64, used: nat, later: seq<uint32>, end: nat)
    requires remaining > 0
    requires DecodeVarint(buf) == Ok((gap, used)) && next == WrappingAdd(last, gap) && next < universe
    requires var r := DecodeDeltas(buf[used..], next, remaining - 1, universe);
             r.Ok? && r.value.0 == later && r.value.1 == end
    ensures DecodeDeltas(buf, last, remaining, universe).Ok?
    ensures DecodeDeltas(buf, last, remaining, universe).value.0 == [next] + later
    ensures DecodeDeltas(buf, last, remaining, universe).value.1 == used + end
  {
  }

  /** A turn of the gap loop whose later turns fail, fails. */
  lemma DecodeDeltasLaterFails(buf: seq<uint8>, last: uint32, next: uint32, remaining: nat,
                               universe: uint32, gap: uint64, used: nat)
    requires remaining > 0
    requires DecodeVarint(buf) == Ok((gap, used)) && next == WrappingAdd(last, gap)
    requires next >= universe || DecodeDeltas(buf[used..], next, remaining - 1, universe).Err?
    ensures DecodeDeltas(buf, last, remaining, universe).Err?
  {
  }

  /** A successful turn of the gap loop, taken apart: the gap decodes, the rebuilt ID
      fits, and the later turns succeed on the bytes after the gap. */
  lemma DecodeDeltasTurn(buf: seq<uint8>, last: uint32, remaining: nat, universe: uint32)
    requires remaining > 0 && DecodeDeltas(buf, last, remaining, universe).Ok?
    ensures DecodeVarint(buf).Ok?
    ensures var (gap, used) := DecodeVarint(buf).value;
            var r, later := DecodeDeltas(buf, last, remaining, universe),
                            DecodeDeltas(buf[used..], WrappingAdd(last, gap), remaining - 1, universe);
            && WrappingAdd(last, gap) < universe
            && later.Ok?
            && r.value.0 == [WrappingAdd(last, gap)] + later.value.0
            && r.value.1 == used + later.value.1
  {
  }

  /** A turn of the gap loop whose gap does not decode, fails. */
  lemma DecodeDeltasGapFails(buf: seq<uint8>, last: uint32, remaining: nat, universe: uint32)
    requires remaining > 0 && DecodeVarint(buf).Err?
    ensures DecodeDeltas(buf, last, remaining, universe).Err?
  {
  }

  /** Bytes after those the gap loop reads never change what it returns. */
  lemma {:induction false} DecodeDeltasIgnoresTail(buf: seq<uint8>, last: uint32, remaining: nat,
                                                   universe: uint32, rest: seq<uint8>)
    requires DecodeDeltas(buf, last, remaining, universe).Ok?
    ensures var r, r' := DecodeDeltas(buf, last, remaining, universe), DecodeDeltas(buf + rest, last, remaining, universe);
            r'.Ok? && r'.value.0 == r.value.0 && r'.value.1 == r.value.1
    decreases remaining, 1
  {
    if remaining > 0 {
      DecodeDeltasTurn(buf, last, remaining, universe);
      var (gap, used) := DecodeVarint(buf).value;
      var later := DecodeDeltas(buf[used..], WrappingAdd(last, gap), remaining - 1, universe).value;
      DecodeDeltasIgnoresTailStep(buf, last, remaining, universe, rest, gap, used, later.0, later.1);
    }
  }

  /** The turn of `DecodeDeltasIgnoresTail` that reads a gap. */
  lemma {:induction false} DecodeDeltasIgnoresTailStep(buf: seq<uint8>, last: uint32, remaining: nat,
                                                       universe: uint32, rest: seq<uint8>, gap: uint64,
                                                       used: nat, later: seq<uint32>, end: nat)
    requires remaining > 0
    requires DecodeVarint(buf) == Ok((gap, used)) && WrappingAdd(last, gap) < universe
    requires var t := DecodeDeltas(buf[used..], WrappingAdd(last, gap), remaining - 1, universe);
             t.Ok? && t.value.0 == later && t.value.1 == end
    ensures var r := DecodeDeltas(buf + rest, last, remaining, universe);
            r.Ok? && r.value.0 == [WrappingAdd(last, gap)] + later && r.value.1 == used + end
    decreases remaining, 0
  {
    var next := WrappingAdd(last, gap);
    DecodeVarintIgnoresTail(buf, rest);
    DropFromFront(buf, rest, used);
    DecodeDeltasIgnoresTail(buf[used..], next, remaining - 1, universe, rest);
    DecodeDeltasLaterSucceeds(buf + rest, last, next, remaining, universe, gap, used, later, end);
  }

  /** The gap loop fails on any prefix that stops before the bytes it reads end. */
  lemma {:induction false} DecodeDeltasPrefix(buf: seq<uint8>, last: uint32, remaining: nat,
                                              universe: uint32, cut: nat)
    requires DecodeDeltas(buf, last, remaining, universe).Ok?
    requires cut < DecodeDeltas(buf, last, remaining, universe).value.1
    ensures DecodeDeltas(buf[..cut], last, remaining, universe).Err?
    decreases remaining, 1
  {
    DecodeDeltasTurn(buf, last, remaining, universe);
    var (gap, used) := DecodeVarint(buf).value;
    var later := DecodeDeltas(buf[used..], WrappingAdd(last, gap), remaining - 1, universe).value;
    DecodeDeltasPrefixStep(buf, last, remaining, universe, cut, gap, used, later.1);
  }

  /** The turn of `DecodeDeltasPrefix` that reads a gap. */
  lemma {:induction false} DecodeDeltasPrefixStep(buf: seq<uint8>, last: uint32, remaining: nat,
                                                  universe: uint32, cut: nat, gap: uint64, used: nat, end: nat)
    requires remaining > 0
    requires DecodeVarint(buf) == Ok((gap, used)) && WrappingAdd(last, gap) < universe
    requires var t := DecodeDeltas(buf[used..], WrappingAdd(last, gap), remaining - 1, universe);
             t.Ok? && t.value.1 == end
    requires cut < used + end
    ensures DecodeDeltas(buf[..cut], last, remaining, universe).Err?
    decreases remaining, 0
  {
    var next := WrappingAdd(last, gap);
    DecodeVarintPrefix(buf, cut);
    if cut < used {
      DecodeDeltasGapFails(buf[..cut], last, remaining, universe);
    } else {
      CutThenDrop(buf, used, cut);
      DecodeDeltasPrefix(buf[used..], next, remaining - 1, universe, cut - used);
      DecodeDeltasLaterFails(buf[..cut], last, next, remaining, universe, gap, used);
    }
  }

  /** Dropping bytes from the front of `a + b`, no more than `a` holds. */
  lemma DropFromFront<T>(a: seq<T>, b: seq<T>, n: nat)
    requires n <= |a|
    ensures (a + b)[n..] == a[n..] + b
  {
  }

  /** Cutting at `cut` and then dropping `n` is dropping `n` and then cutting at `cut - n`. */
  lemma CutThenDrop<T>(a: seq<T>, n: nat, cut: nat)
    requires n <= cut <= |a|
    ensures a[..cut][n..] == a[n..][..cut - n]
  {
  }

  /* ---------------------------------------------------------------------------
     The gap loop on the encoder's gap varints
     --------------------------------------------------------------------------- */

  /** The gap varints of `ids` followed by `suffix` open with the varint of the first
      gap, which decodes to that gap and rebuilds the second ID, then hold the gap
      varints of `ids[1..]` followed by `suffix`. */
  lemma FirstGapReads(ids: seq<uint32>, suffix: seq<uint8>)
    requires StrictlyIncreasing(ids) && |ids| >= 2
    ensures var enc, buf := EncodeVarint(ids[1] - ids[0]), EncodeDeltas(ids) + suffix;
            && StrictlyIncreasing(ids[1..])
            && ids[1] == WrappingAdd(ids[0], ids[1] - ids[0])
            && DecodeVarint(buf) == Ok((ids[1] - ids[0], |enc|))
            && buf[|enc|..] == EncodeDeltas(ids[1..]) + suffix
            && |EncodeDeltas(ids)| == |enc| + |EncodeDeltas(ids[1..])|
  {
    var enc, more := EncodeVarint(ids[1] - ids[0]), EncodeDeltas(ids[1..]);
    EncodeDeltasFront(ids);
    ConcatAssoc(enc, more, suffix);
    VarintFront(ids[1] - ids[0], more + suffix);
  }

  /** The gap varints of `ids` are the first gap's varint, then those of `ids[1..]`. */
  lemma EncodeDeltasFront(ids: seq<uint32>)
    requires StrictlyIncreasing(ids) && |ids| >= 2
    ensures StrictlyIncreasing(ids[1..])
    ensures EncodeDeltas(ids) == EncodeVarint(ids[1] - ids[0]) + EncodeDeltas(ids[1..])
  {
  }

  lemma ConcatAssoc<T>(a: seq<T>, b: seq<T>, c: seq<T>)
    ensures (a + b) + c == a + (b + c)
  {
  }

  /** A proper prefix of the gap varints of `ids` either cuts the first varint short,
      or holds all of it followed by a proper prefix of the gap varints of `ids[1..]`. */
  lemma FirstGapCut(ids: seq<uint32>, cut: nat)
    requires StrictlyIncreasing(ids) && |ids| >= 2 && cut < |EncodeDeltas(ids)|
    ensures var enc, buf := EncodeVarint(ids[1] - ids[0]), EncodeDeltas(ids)[..cut];
            && StrictlyIncreasing(ids[1..])
            && (cut < |enc| ==> DecodeVarint(buf).Err?)
            && (cut >= |enc| ==>
                  && ids[1] == WrappingAdd(ids[0], ids[1] - ids[0])
                  && DecodeVarint(buf) == Ok((ids[1] - ids[0], |enc|))
                  && cut - |enc| < |EncodeDeltas(ids[1..])|
                  && buf[|enc|..] == EncodeDeltas(ids[1..])[..cut - |enc|])
  {
    var enc, more := EncodeVarint(ids[1] - ids[0]), EncodeDeltas(ids[1..]);
    assert EncodeDeltas(ids) == enc + more;
    if cut < |enc| {
      assert EncodeDeltas(ids)[..cut] == enc[..cut];
      CutVarintFails(ids[1] - ids[0], cut);
    } else {
      assert EncodeDeltas(ids)[..cut] == enc + more[..cut - |enc|];
      VarintRoundTrip(ids[1] - ids[0], more[..cut - |enc|]);
    }
  }

  /** Decoding the gap varints of `ids`, whatever follows them, recovers `ids[1..]` and
      reads exactly the gap varints, unless an ID is outside the universe, which fails. */
  lemma {:induction false} DecodeEncodedDeltas(ids: seq<uint32>, suffix: seq<uint8>, universe: uint32)
    requires StrictlyIncreasing(ids) && |ids| >= 1
    ensures var r := DecodeDeltas(EncodeDeltas(ids) + suffix, ids[0], |ids| - 1, universe);
            && (r.Ok? <==> AllBelow(ids[1..], universe))
            && (r.Ok? ==> r.value.0 == ids[1..] && r.value.1 == |EncodeDeltas(ids)|)
    decreases |ids|
  {
    if |ids| == 1 {
      assert ids[1..] == [];
    } else {
      assert StrictlyIncreasing(ids[1..]);
      DecodeEncodedDeltas(ids[1..], suffix, universe);
      DecodeEncodedDeltasStep(ids, suffix, universe);
    }
  }

  /** The inductive step of `DecodeEncodedDeltas`: the first gap in front. */
  lemma DecodeEncodedDeltasStep(ids: seq<uint32>, suffix: seq<uint8>, universe: uint32)
    requires StrictlyIncreasing(ids) && |ids| >= 2 && StrictlyIncreasing(ids[1..])
    requires var r := DecodeDeltas(EncodeDeltas(ids[1..]) + suffix, ids[1], |ids| - 2, universe);
             && (r.Ok? <==> AllBelow(ids[2..], universe))
             && (r.Ok? ==> r.value.0 == ids[2..] && r.value.1 == |EncodeDeltas(ids[1..])|)
    ensures var r := DecodeDeltas(EncodeDeltas(ids) + suffix, ids[0], |ids| - 1, universe);
            && (r.Ok? <==> AllBelow(ids[1..], universe))
            && (r.Ok? ==> r.value.0 == ids[1..] && r.value.1 == |EncodeDeltas(ids)|)
  {
    var used := |EncodeVarint(ids[1] - ids[0])|;
    FirstGapReads(ids, suffix);
    assert ids[1..][1..] == ids[2..];
    DecodeDeltasPrepend(EncodeDeltas(ids) + suffix, ids[0], ids[1..], universe,
                        ids[1] - ids[0], used, |EncodeDeltas(ids[1..])|);
  }

  /** Decoding a proper prefix of the gap varints fails: the cut falls inside some varint,
      which then runs out of bytes. */
  lemma {:induction false} DecodeCutDeltas(ids: seq<uint32>, cut: nat, universe: uint32)
    requires StrictlyIncreasing(ids) && |ids| >= 1
    requires cut < |EncodeDeltas(ids)|
    ensures DecodeDeltas(EncodeDeltas(ids)[..cut], ids[0], |ids| - 1, universe).Err?
    decreases |ids|
  {
    var used := |EncodeVarint(ids[1] - ids[0])|;
    FirstGapCut(ids, cut);
    if cut >= used {
      if ids[1] < universe {
        DecodeCutDeltas(ids[1..], cut - used, universe);
      }
      DecodeDeltasLaterFails(EncodeDeltas(ids)[..cut], ids[0], ids[1], |ids| - 1, universe,
                             ids[1] - ids[0], used);
    }
  }

  /* ---------------------------------------------------------------------------
     Reading a payload step by step
     --------------------------------------------------------------------------- */

  /** The varint of `v` in front of `rest` decodes to `v` and leaves `rest` to be read. */
  lemma VarintFront(v: uint64, rest: seq<uint8>)
    requires v < TWO_TO_THE_63
    ensures DecodeVarint(EncodeVarint(v) + rest) == Ok((v, |EncodeVarint(v)|))
    ensures (EncodeVarint(v) + rest)[|EncodeVarint(v)|..] == rest
  {
    VarintRoundTrip(v, rest);
  }

  /** `decompress_set` on a non-empty payload whose count varint does not decode. */
  lemma DecompressSetCountFails(compressed: seq<uint8>, universe: uint32)
    requires |compressed| > 0 && DecodeVarint(compressed).Err?
    ensures DecompressSet(compressed, universe) == Err(DecompressionFailed)
  {
  }

  /** `decompress_set` on a payload whose count is read and non-zero: what follows the
      count decides the result. */
  lemma DecompressSetReadsCount(compressed: seq<uint8>, universe: uint32, count: uint64, countUsed: nat)
    requires DecodeVarint(compressed) == Ok((count, countUsed)) && count > 0
    ensures DecompressSet(compressed, universe) == DecodeIds(compressed[countUsed..], count, universe)
  {
  }

  /** The IDs after the count fail when the first-ID varint does not decode. */
  lemma DecodeIdsFirstFails(body: seq<uint8>, count: nat, universe: uint32)
    requires count > 0 && DecodeVarint(body).Err?
    ensures DecodeIds(body, count, universe) == Err(DecompressionFailed)
  {
  }

  /** The IDs after the count fail when the first ID does not fit the universe. */
  lemma DecodeIdsFirstTooLarge(body: seq<uint8>, count: nat, universe: uint32, first: uint64, firstUsed: nat)
    requires count > 0
    requires DecodeVarint(body) == Ok((first, firstUsed)) && first >= universe
    ensures DecodeIds(body, count, universe) == Err(DecompressionFailed)
  {
  }

  /** The IDs after the count fail when the gap loop fails. */
  lemma DecodeIdsGapsFail(body: seq<uint8>, count: nat, universe: uint32, first: uint64, firstUsed: nat)
    requires count > 0
    requires DecodeVarint(body) == Ok((first, firstUsed)) && first < universe
    requires DecodeDeltas(body[firstUsed..], first, count - 1, universe).Err?
    ensures DecodeIds(body, count, universe) == Err(DecompressionFailed)
  {
  }

  /** The IDs after the count, when the first ID fits and the gap loop succeeds: they
      come back exactly when the gap loop stops at the end of the bytes. */
  lemma DecodeIdsReads(body: seq<uint8>, count: nat, universe: uint32, first: uint64, firstUsed: nat,
                       later: seq<uint32>, end: nat)
    requires count > 0
    requires DecodeVarint(body) == Ok((first, firstUsed)) && first < universe
    requires var r := DecodeDeltas(body[firstUsed..], first, count - 1, universe);
             r.Ok? && r.value.0 == later && r.value.1 == end
    ensures DecodeIds(body, count, universe) ==
              if firstUsed + end < |body| then Err(DecompressionFailed) else Ok([first] + later)
  {
  }

  /* ---------------------------------------------------------------------------
     Whole payloads
     --------------------------------------------------------------------------- */

  /** `compress_set`'s payload for a non-empty set: the varint of the count, the varint
      of the first ID, then the gap varints. */
  lemma CompressLayout(ids: seq<uint32>, universe: uint32)
    requires |ids| < TWO_TO_THE_64 && CompressSet(ids, universe).Ok? && |ids| > 0
    ensures StrictlyIncreasing(ids) && AllBelow(ids, universe)
    ensures CompressSet(ids, universe).value ==
              EncodeVarint(|ids|) + (EncodeVarint(ids[0]) + EncodeDeltas(ids))
  {
  }

  /** The first-ID varint and the gap varints of a non-empty increasing list, followed by
      `suffix`, decode to the list exactly when it fits the universe and nothing
      follows. */
  lemma DecodeIdsLayout(ids: seq<uint32>, suffix: seq<uint8>, universe: uint32)
    requires StrictlyIncreasing(ids) && |ids| > 0
    ensures DecodeIds(EncodeVarint(ids[0]) + (EncodeDeltas(ids) + suffix), |ids|, universe) ==
              if AllBelow(ids, universe) && |suffix| == 0 then Ok(ids) else Err(DecompressionFailed)
  {
    var f, d := EncodeVarint(ids[0]), EncodeDeltas(ids);
    VarintFront(ids[0], d + suffix);
    AllBelowFront(ids, universe);
    if ids[0] >= universe {
      DecodeIdsFirstTooLarge(f + (d + suffix), |ids|, universe, ids[0], |f|);
    } else {
      DecodeEncodedDeltas(ids, suffix, universe);
      if AllBelow(ids[1..], universe) {
        DecodeIdsReads(f + (d + suffix), |ids|, universe, ids[0], |f|, ids[1..], |d|);
      } else {
        DecodeIdsGapsFail(f + (d + suffix), |ids|, universe, ids[0], |f|);
      }
    }
  }

  /** Decompressing the encoder's layout for a non-empty increasing list, followed by
      `suffix`: the IDs come back exactly when they all fit the universe and nothing
      follows. */
  lemma DecompressLayout(ids: seq<uint32>, suffix: seq<uint8>, universe: uint32)
    requires StrictlyIncreasing(ids) && 0 < |ids| < TWO_TO_THE_63
    ensures DecompressSet(EncodeVarint(|ids|) + (EncodeVarint(ids[0]) + (EncodeDeltas(ids) + suffix)), universe) ==
              if AllBelow(ids, universe) && |suffix| == 0 then Ok(ids) else Err(DecompressionFailed)
  {
    var body := EncodeVarint(ids[0]) + (EncodeDeltas(ids) + suffix);
    VarintFront(|ids|, body);
    DecompressSetReadsCount(EncodeVarint(|ids|) + body, universe, |ids|, |EncodeVarint(|ids|)|);
    DecodeIdsLayout(ids, suffix, universe);
  }

  lemma AllBelowFront(ids: seq<uint32>, universe: int)
    requires |ids| > 0
    ensures ids == [ids[0]] + ids[1..]
    ensures AllBelow(ids, universe) <==> ids[0] < universe && AllBelow(ids[1..], universe)
  {
    assert forall i :: 1 <= i < |ids| ==> ids[i] == ids[1..][i - 1];
  }

  /** Decompressing a non-empty payload followed by `suffix`, under any universe: the IDs
      come back exactly when they all fit the universe and nothing follows the payload. */
  lemma DecompressCompressed(ids: seq<uint32>, universe: uint32, universe': uint32, suffix: seq<uint8>)
    requires 0 < |ids| < TWO_TO_THE_64 && CompressSet(ids, universe).Ok?
    ensures DecompressSet(CompressSet(ids, universe).value + suffix, universe') ==
              if AllBelow(ids, universe') && |suffix| == 0 then Ok(ids) else Err(DecompressionFailed)
  {
    var c, f, d := EncodeVarint(|ids|), EncodeVarint(ids[0]), EncodeDeltas(ids);
    CompressLayout(ids, universe);
    SetNoLargerThanUniverse(ids, universe);
    assert CompressSet(ids, universe).value + suffix == c + (f + (d + suffix));
    DecompressLayout(ids, suffix, universe');
  }

  /** Round trip: whatever `compress_set` accepts, `decompress_set` returns unchanged
      under the same universe. */
  lemma RoundTrip(ids: seq<uint32>, universe: uint32)
    requires StrictlyIncreasing(ids) && AllBelow(ids, universe) && |ids| < TWO_TO_THE_64
    ensures CompressSet(ids, universe).Ok?
    ensures DecompressSet(CompressSet(ids, universe).value, universe) == Ok(ids)
  {
    if |ids| > 0 {
      DecompressCompressed(ids, universe, universe, []);
      assert CompressSet(ids, universe).value + [] == CompressSet(ids, universe).value;
    }
  }

  /** Decompressing with a universe that some ID does not fit fails rather than returning
      a wrong set. */
  lemma UniverseMismatchRejected(ids: seq<uint32>, universe: uint32, universe': uint32)
    requires |ids| < TWO_TO_THE_64 && CompressSet(ids, universe).Ok?
    requires exists i :: 0 <= i < |ids| && ids[i] >= universe'
    ensures DecompressSet(CompressSet(ids, universe).value, universe') == Err(DecompressionFailed)
  {
    DecompressCompressed(ids, universe, universe', []);
    assert CompressSet(ids, universe).value + [] == CompressSet(ids, universe).value;
  }

  /** Any bytes appended to the payload of a non-empty set make decompression fail. */
  lemma TrailingBytesRejected(ids: seq<uint32>, universe: uint32, extra: seq<uint8>)
    requires 0 < |ids| < TWO_TO_THE_64 && CompressSet(ids, universe).Ok?
    requires |extra| > 0
    ensures DecompressSet(CompressSet(ids, universe).value + extra, universe) == Err(DecompressionFailed)
  {
    DecompressCompressed(ids, universe, universe, extra);
  }

  /** Cutting any number of bytes off the end of a non-empty set's payload (but not all of
      them) makes decompression fail, under any universe. */
  lemma TruncatedPayloadRejected(ids: seq<uint32>, universe: uint32, universe': uint32, keep: nat)
    requires 0 < |ids| < TWO_TO_THE_64 && CompressSet(ids, universe).Ok?
    requires 0 < keep < |CompressSet(ids, universe).value|
    ensures DecompressSet(CompressSet(ids, universe).value[..keep], universe') == Err(DecompressionFailed)
  {
    CompressLayout(ids, universe);
    SetNoLargerThanUniverse(ids, universe);
    DecompressCutLayout(ids, keep, universe');
  }

  /* ---------------------------------------------------------------------------
     Any payload that decodes, not only the encoder's
     --------------------------------------------------------------------------- */

  /** Once any payload, padded varints included, decodes to a non-empty set, appending
      bytes to it makes `decompress_set` fail: the trailing check sees them. */
  lemma TrailingBytesAfterAnyPayload(compressed: seq<uint8>, universe: uint32, extra: seq<uint8>)
    requires DecompressSet(compressed, universe).Ok? && |DecompressSet(compressed, universe).value| > 0
    requires |extra| > 0
    ensures DecompressSet(compressed + extra, universe) == Err(DecompressionFailed)
  {
    var (count, countUsed) := DecodeVarint(compressed).value;
    DecompressSetReadsCount(compressed, universe, count, countUsed);
    DecodeVarintIgnoresTail(compressed, extra);
    DropFromFront(compressed, extra, countUsed);
    DecompressSetReadsCount(compressed + extra, universe, count, countUsed);
    DecodeIdsTrailing(compressed[countUsed..], count, universe, extra);
  }

  /** Once any payload decodes to a non-empty set, every proper non-empty prefix of it
      fails to decompress: the cut lands inside a varint or before the last one. */
  lemma TruncatedAnyPayloadRejected(compressed: seq<uint8>, universe: uint32, keep: nat)
    requires DecompressSet(compressed, universe).Ok? && |DecompressSet(compressed, universe).value| > 0
    requires 0 < keep < |compressed|
    ensures DecompressSet(compressed[..keep], universe) == Err(DecompressionFailed)
  {
    var (count, countUsed) := DecodeVarint(compressed).value;
    DecompressSetReadsCount(compressed, universe, count, countUsed);
    DecodeVarintPrefix(compressed, keep);
    if keep < countUsed {
      DecompressSetCountFails(compressed[..keep], universe);
    } else {
      DecompressSetReadsCount(compressed[..keep], universe, count, countUsed);
      CutThenDrop(compressed, countUsed, keep);
      DecodeIdsPrefix(compressed[countUsed..], count, universe, keep - countUsed);
    }
  }

  /** A successful read of the IDs after the count, taken apart: the first ID decodes and
      fits, and the gap loop succeeds and ends exactly at the end of the bytes. */
  lemma DecodeIdsTurn(body: seq<uint8>, count: nat, universe: uint32)
    requires count > 0 && DecodeIds(body, count, universe).Ok?
    ensures DecodeVarint(body).Ok?
    ensures var (first, firstUsed) := DecodeVarint(body).value;
            var t := DecodeDeltas(body[firstUsed..], first, count - 1, universe);
            && first < universe
            && t.Ok?
            && firstUsed + t.value.1 == |body|
  {
  }

  /** Bytes appended after IDs that decode make the trailing check fail. */
  lemma DecodeIdsTrailing(body: seq<uint8>, count: nat, universe: uint32, extra: seq<uint8>)
    requires count > 0 && DecodeIds(body, count, universe).Ok? && |extra| > 0
    ensures DecodeIds(body + extra, count, universe) == Err(DecompressionFailed)
  {
    DecodeIdsTurn(body, count, universe);
    var (first, firstUsed) := DecodeVarint(body).value;
    var later := DecodeDeltas(body[firstUsed..], first, count - 1, universe).value;
    DecodeIdsTrailingStep(body, count, universe, extra, first, firstUsed, later.0, later.1);
  }

  lemma DecodeIdsTrailingStep(body: seq<uint8>, count: nat, universe: uint32, extra: seq<uint8>,
                              first: uint64, firstUsed: nat, later: seq<uint32>, end: nat)
    requires count > 0 && |extra| > 0
    requires DecodeVarint(body) == Ok((first, firstUsed)) && first < universe
    requires var t := DecodeDeltas(body[firstUsed..], first, count - 1, universe);
             t.Ok? && t.value.0 == later && t.value.1 == end
    requires firstUsed + end == |body|
    ensures DecodeIds(body + extra, count, universe) == Err(DecompressionFailed)
  {
    DecodeVarintIgnoresTail(body, extra);
    DropFromFront(body, extra, firstUsed);
    DecodeDeltasIgnoresTail(body[firstUsed..], first, count - 1, universe, extra);
    DecodeIdsReads(body + extra, count, universe, first, firstUsed, later, end);
  }

  /** IDs that decode from `body` fail to decode from any proper prefix of it. */
  lemma DecodeIdsPrefix(body: seq<uint8>, count: nat, universe: uint32, cut: nat)
    requires count > 0 && DecodeIds(body, count, universe).Ok? && cut < |body|
    ensures DecodeIds(body[..cut], count, universe) == Err(DecompressionFailed)
  {
    DecodeIdsTurn(body, count, universe);
    var (first, firstUsed) := DecodeVarint(body).value;
    var later := DecodeDeltas(body[firstUsed..], first, count - 1, universe).value;
    DecodeIdsPrefixStep(body, count, universe, cut, first, firstUsed, later.1);
  }

  lemma DecodeIdsPrefixStep(body: seq<uint8>, count: nat, universe: uint32, cut: nat,
                            first: uint64, firstUsed: nat, end: nat)
    requires count > 0 && cut < |body|
    requires DecodeVarint(body) == Ok((first, firstUsed)) && first < universe
    requires var t := DecodeDeltas(body[firstUsed..], first, count - 1, universe);
             t.Ok? && t.value.1 == end
    requires firstUsed + end == |body|
    ensures DecodeIds(body[..cut], count, universe) == Err(DecompressionFailed)
  {
    DecodeVarintPrefix(body, cut);
    if cut < firstUsed {
      DecodeIdsFirstFails(body[..cut], count, universe);
    } else {
      CutThenDrop(body, firstUsed, cut);
      DecodeDeltasPrefix(body[firstUsed..], first, count - 1, universe, cut - firstUsed);
      DecodeIdsGapsFail(body[..cut], count, universe, first, firstUsed);
    }
  }

  /** Decompressing a proper, non-empty prefix of the encoder's layout fails. */
  lemma DecompressCutLayout(ids: seq<uint32>, keep: nat, universe: uint32)
    requires StrictlyIncreasing(ids) && 0 < |ids| < TWO_TO_THE_63
    requires 0 < keep < |EncodeVarint(|ids|) + (EncodeVarint(ids[0]) + EncodeDeltas(ids))|
    ensures DecompressSet((EncodeVarint(|ids|) + (EncodeVarint(ids[0]) + EncodeDeltas(ids)))[..keep], universe)
              == Err(DecompressionFailed)
  {
    var c, body := EncodeVarint(|ids|), EncodeVarint(ids[0]) + EncodeDeltas(ids);
    if keep < |c| {
      CutInHead(c, body, keep);
      CutVarintFails(|ids|, keep);
      DecompressSetCountFails(c[..keep], universe);
    } else {
      CutInTail(c, body, keep);
      VarintFront(|ids|, body[..keep - |c|]);
      DecompressSetReadsCount(c + body[..keep - |c|], universe, |ids|, |c|);
      DecodeCutIds(ids, keep - |c|, universe);
    }
  }

  /** Decoding the IDs after the count from a proper prefix of the first-ID varint and
      the gap varints fails. */
  lemma DecodeCutIds(ids: seq<uint32>, cut: nat, universe: uint32)
    requires StrictlyIncreasing(ids) && |ids| > 0
    requires cut < |EncodeVarint(ids[0]) + EncodeDeltas(ids)|
    ensures DecodeIds((EncodeVarint(ids[0]) + EncodeDeltas(ids))[..cut], |ids|, universe) == Err(DecompressionFailed)
  {
    var f, d := EncodeVarint(ids[0]), EncodeDeltas(ids);
    if cut < |f| {
      CutInHead(f, d, cut);
      CutVarintFails(ids[0], cut);
      DecodeIdsFirstFails(f[..cut], |ids|, universe);
    } else {
      CutInTail(f, d, cut);
      DecodeCutGaps(ids, cut - |f|, universe);
    }
  }

  /** Decoding the IDs after the count from the whole first-ID varint and a proper prefix
      of the gap varints fails. */
  lemma DecodeCutGaps(ids: seq<uint32>, cut: nat, universe: uint32)
    requires StrictlyIncreasing(ids) && |ids| > 0
    requires cut < |EncodeDeltas(ids)|
    ensures DecodeIds(EncodeVarint(ids[0]) + EncodeDeltas(ids)[..cut], |ids|, universe) == Err(DecompressionFailed)
  {
    var f, rest := EncodeVarint(ids[0]), EncodeDeltas(ids)[..cut];
    VarintFront(ids[0], rest);
    if ids[0] >= universe {
      DecodeIdsFirstTooLarge(f + rest, |ids|, universe, ids[0], |f|);
    } else {
      DecodeCutDeltas(ids, cut, universe);
      DecodeIdsGapsFail(f + rest, |ids|, universe, ids[0], |f|);
    }
  }

  /** A cut inside `a` of `a + b` keeps a prefix of `a` only. */
  lemma CutInHead<T>(a: seq<T>, b: seq<T>, keep: nat)
    requires keep <= |a|
    ensures (a + b)[..keep] == a[..keep]
  {
  }

  /** A cut inside `b` of `a + b` keeps all of `a` and a prefix of `b`. */
  lemma CutInTail<T>(a: seq<T>, b: seq<T>, keep: nat)
    requires |a| <= keep <= |a| + |b|
    ensures (a + b)[..keep] == a + b[..keep - |a|]
  {
  }

  /** A count of 2^63 or more takes ten varint bytes, which the decoder refuses, so no
      payload that starts with one decompresses. No accepted set is that large
      (`SetNoLargerThanUniverse`), so `compress_set` never writes such a count. */
  lemma HugeCountRejected(count: uint64, body: seq<uint8>, universe: uint32)
    requires count >= TWO_TO_THE_63
    ensures DecompressSet(EncodeVarint(count) + body, universe) == Err(DecompressionFailed)
  {
    EncodeVarintLength(count);
    DecodeRejectsWideValues(count, body);
    DecompressSetCountFails(EncodeVarint(count) + body, universe);
  }
}
