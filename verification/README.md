# ROC delta + varint set codec, in Dafny

This project models the set codec of `RocCompressor` in the `idpaq` crate. The
codec stores a set of `u32` IDs drawn from a universe `[0, universe_size)` as a byte
string. The model covers both layers of the codec and proves what they promise.

- **The varint primitive.** `encode_varint` and `decode_varint` implement unsigned
  LEB128 (section 7.6 of DWARF Version 4): 7-bit groups, least significant first,
  with the continuation bit 0x80 on every byte but the last. The decoder fails when
  the input ends before a terminating byte. It also fails when it would read a byte at
  shift > 56, so it accepts at most nine bytes.
- **The set codec.**
  - `validate_ids` refuses a list that is not strictly increasing.
  - `compress_set` also refuses an ID at or above the universe. It then writes
    `varint(count) varint(first ID) varint(gap) ...`, and writes nothing at all for
    the empty set.
  - `decompress_set` reads that layout back. It rebuilds each ID as
    `last + gap as u32` and fails on an ID outside the universe or on bytes left
    over.

Modules, one per file:

| module | file | contents |
|---|---|---|
| `Ints` | ints.dfy | `uint8`, `uint32` and `uint64` as bounded `int`s; powers of two |
| `Errors` | errors.dfy | the two error kinds and a `Result` type usable with `:-` |
| `Varint` | varint.dfy | `encode_varint`, `decode_varint`, framing, size, round trip |
| `Roc` | roc.dfy | `validate_ids`, `compress_set`, `decompress_set` and their loops |
| `RocProperties` | roc_properties.dfy | round trip and error detection of the set codec |
| `RocSize` | roc_size.dfy | payload size bounds |
| `RocExamples` | roc_examples.dfy | the unit-test cases and edge cases on concrete bytes |

Bytes, IDs and varint values are `int` subset types (`uint8`, `uint32`, `uint64`).
Bit operations are written arithmetically. `x & 0x7F` is `x % 0x80`. `x >> 7` is
`x / 0x80`. OR-ing a group into bits the accumulator has not reached yet is addition.
The source's loops become recursive functions. The `offset` bookkeeping of
`decompress_set` becomes slicing the unread bytes: each decoder returns how many bytes
it read. Every operation is a pure function of its arguments, so the determinism the
property tests check holds by construction.

### Where the code and its description differ

The model follows the code in each of these cases:

- **Output need not be increasing.** The set codec is described as returning a
  strictly increasing list, but `decompress_set` never checks the gaps. A zero gap
  gives a repeated ID. A gap of 2^32 - 1 wraps around to a smaller ID. Both inputs
  are accepted (`RocExamples.ZeroGapAccepted`, `RocExamples.WrappingGapAccepted`).
  `Roc.DecompressSet` therefore promises only that the IDs lie in the universe.
- **At most nine varint bytes.** Varints are described as 1 to 10 bytes, but the
  decoder refuses a tenth byte. The encoder writes ten bytes for values of 2^63 and
  above, and the decoder rejects them (`Varint.DecodeRejectsWideValues`), so a payload
  whose count is that large never decompresses (`RocProperties.HugeCountRejected`).
  The round trip is not affected: an accepted set has no more IDs than its universe,
  which is below 2^32 (`RocProperties.SetNoLargerThanUniverse`).
- **Trailing bytes after a zero count.** Trailing bytes are described as always
  fatal. After a count of zero, however, `decompress_set` returns the empty set
  without looking at the rest (`RocExamples.ZeroCountIgnoresRest`).
- **Padded varints.** The decoder accepts padded varints such as `0x80 0x00`, which
  the encoder never writes. So encode-then-decode is the identity, but
  decode-then-encode is not (`Varint.DecodeThenEncode`).
- **"Compressed is never larger than raw".** The property test claims that sets of
  more than ten IDs never compress to more than 4 bytes per ID. This holds for the
  universes the test draws (below 2^21), and `RocSize.SmallUniverseBeatsRaw` proves it
  for every universe up to 2^21. It does not hold for every universe. Eleven IDs
  2^28 apart need 1 + 1 + 5·10 = 52 bytes against 44 raw bytes
  (`RocSize.WideGapsExceedRaw`).

## Model

| member | source | states |
|---|---|---|
| Roc.ValidateIds | src/roc.rs:54-70 | validation succeeds exactly when every ID is larger than its predecessor; a failure is always `InvalidInput` |
| RocProperties.IncreasingIffSortedDistinct | src/roc.rs:59-67 | checking only neighbouring pairs is the same as requiring every earlier ID to be smaller than every later one |
| RocProperties.ValidateIdsAcceptsSets | src/roc.rs:54-70 | validation accepts exactly the sorted duplicate-free lists, and compression succeeds exactly for those whose IDs all lie below the universe |
| Roc.MaxId | src/roc.rs:149 | the maximum is one of the IDs and no ID exceeds it |
| Varint.EncodeVarint | src/roc.rs:97-104 | the encoder loop; what its output is (one framed canonical varint of the value, of minimal length, decoded back by `decode_varint`) is stated by `Varint.EncodeVarintFraming`, `Varint.EncodeVarintLength` and `Varint.VarintRoundTrip` |
| Varint.EncodeVarintFraming | src/roc.rs:97-104 | the output is one varint: every byte before the last has the continuation bit, the last has it clear; no zero group after the first; its 7-bit groups add up to the value; no shorter encoding exists |
| Varint.EncodeVarintLength | src/roc.rs:97-104 | one byte exactly when the value is below 0x80; at most 5 bytes for a `u32`; at most 9 bytes exactly when the value is below 2^63; never more than 10 |
| Varint.EncodeVarintLengthMonotone | src/roc.rs:97-104 | a larger value never takes fewer bytes |
| Varint.EncodeVarintFits | src/roc.rs:97-104 | a value below 128^n takes at most n bytes |
| Varint.DecodeGroups | src/roc.rs:113-134 | each loop turn either fails with `DecompressionFailed` or consumes between 1 and the remaining bytes, never past the ninth byte, and yields a value below 128 to the power of the groups still allowed |
| Varint.DecodeVarint | src/roc.rs:108-137 | success consumes between 1 and 9 bytes, all within the buffer, and yields a value below 2^63; failure is `DecompressionFailed` |
| Varint.DecodeVarintSpec | src/roc.rs:113-134 | decoding fails exactly when none of the first nine bytes is a terminating byte; on success the bytes read form one framed varint and the value is their group sum |
| Varint.VarintRoundTrip | src/roc.rs:97-137 | for any value below 2^63 and any following bytes, decoding its encoding returns the value and consumes exactly the encoded bytes |
| Varint.DecodeRejectsWideValues | src/roc.rs:120-124 | values of 2^63 and above encode to ten bytes, which the decoder refuses whatever follows |
| Varint.CutVarintFails | src/roc.rs:114-118 | every proper prefix of an encoding fails to decode |
| Varint.DecodeVarintIgnoresTail | src/roc.rs:108-137 | bytes after a decodable varint never change its decoded value or length |
| Varint.CanonicalEncodingUnique | src/roc.rs:97-104 | a framed canonical varint of at most nine bytes is exactly the encoder's output for its value |
| Varint.DecodeThenEncode | src/roc.rs:108-137 | re-encoding what was decoded gives back the bytes read exactly when they had no padding group |
| Roc.CompressSet | src/roc.rs:141-174 | compression succeeds exactly for strictly increasing IDs all below the universe; errors are `InvalidInput`; the empty list compresses to no bytes for every universe |
| Roc.EncodeDeltas | src/roc.rs:163-171 | the gap varints of a non-empty increasing list take between one and five bytes per gap; `RocProperties.DecodeEncodedDeltas` shows the gap loop of the decoder reads them back into the IDs after the first |
| Roc.WrappingAdd | src/roc.rs:213 | the rebuilt ID is the previous ID plus the gap modulo 2^32, and exactly their sum when that fits in 32 bits |
| Roc.DecodeDeltas | src/roc.rs:208-221 | the gap loop either fails with `DecompressionFailed` or rebuilds exactly the requested number of IDs, all in the universe, reading between `remaining` and 9·`remaining` bytes in all |
| Roc.DecompressSet | src/roc.rs:176-232 | no bytes decode to the empty set; failures are `DecompressionFailed`; every decoded ID lies in the universe; a non-empty result has as many IDs as the leading count and fewer IDs than input bytes |
| Roc.DecodeIds | src/roc.rs:196-231 | after a non-zero count, success yields exactly `count` IDs in the universe from at least as many bytes; failures are `DecompressionFailed` |
| RocProperties.DecodeEncodedDeltas | src/roc.rs:208-221 | decoding the gap varints of an increasing list, whatever follows, rebuilds the list after its first ID exactly when those IDs fit the universe, and reads exactly the gap bytes |
| RocProperties.DecodeCutDeltas | src/roc.rs:208-211 | the gap loop fails on any proper prefix of the gap varints |
| RocProperties.DecodeIdsLayout | src/roc.rs:196-231 | the first-ID varint and gap varints followed by extra bytes decode to the list exactly when it fits the universe and there are no extra bytes |
| RocProperties.DecompressLayout | src/roc.rs:176-232 | the encoder's layout followed by extra bytes decompresses to the list exactly when it fits the universe and there are no extra bytes |
| RocProperties.DecompressCompressed | src/roc.rs:141-232 | a compressed non-empty set followed by extra bytes, read under any universe, gives back the set exactly when the set fits that universe and nothing was appended |
| RocProperties.RoundTrip | tests/property_tests.rs:54-63 | every strictly increasing list in the universe compresses, and decompressing the result gives back the same list |
| RocProperties.UniverseMismatchRejected | src/roc.rs:200-219 | decompressing under a universe that some ID does not fit fails instead of returning a wrong set |
| RocProperties.TrailingBytesRejected | src/roc.rs:223-229 | any bytes appended to a non-empty set's payload make decompression fail |
| RocProperties.TruncatedPayloadRejected | src/roc.rs:189-229 | every proper non-empty prefix of a non-empty set's payload fails to decompress under any universe |
| RocProperties.TrailingBytesAfterAnyPayload | src/roc.rs:223-229 | any payload that decodes to a non-empty set, padded varints included, fails once any bytes are appended to it |
| RocProperties.TruncatedAnyPayloadRejected | src/roc.rs:189-229 | every proper non-empty prefix of any payload that decodes to a non-empty set fails to decompress |
| RocProperties.DecodeIdsTrailing | src/roc.rs:223-229 | after a non-zero count, IDs that decode from some bytes fail to decode once more bytes follow them |
| RocProperties.DecodeIdsPrefix | src/roc.rs:196-229 | after a non-zero count, IDs that decode from some bytes fail to decode from every proper prefix of them |
| RocProperties.DecodeDeltasIgnoresTail | src/roc.rs:208-221 | bytes after those the gap loop reads never change the IDs it rebuilds or the bytes it reads |
| RocProperties.DecodeDeltasPrefix | src/roc.rs:208-211 | the gap loop fails on every prefix that stops before the bytes it reads end |
| Varint.DecodeVarintPrefix | src/roc.rs:113-134 | a prefix holding the whole varint decodes as the full input does; a prefix that stops inside it fails |
| RocProperties.DecompressCutLayout | src/roc.rs:189-229 | every proper non-empty prefix of the encoder's layout fails to decompress |
| RocProperties.DecodeCutIds | src/roc.rs:197-211 | after the count, a cut inside the first-ID varint or the gap varints fails |
| RocProperties.DecodeCutGaps | src/roc.rs:208-211 | after the count and the whole first ID, a cut inside the gap varints fails |
| RocProperties.HugeCountRejected | src/roc.rs:120-124 | a payload whose count varint is the encoding of 2^63 or more fails to decompress, whatever follows it |
| RocSize.PayloadSize | src/roc.rs:158-173 | a non-empty set costs at least one byte per ID plus one, and at most five bytes per ID plus the count's varint (itself at most ten bytes) |
| RocSize.ConsecutiveDeltas | src/roc.rs:167-170 | consecutive IDs are increasing and each gap is the single byte 0x01 |
| RocSize.ConsecutiveIdsSize | tests/property_tests.rs:111-126 | a run of consecutive IDs in the universe compresses to the count, the first ID and exactly one byte per further ID |
| RocProperties.IncreasingAtLeastIndex | src/roc.rs:59-67 | in a strictly increasing list the ID at index i is at least i |
| RocProperties.SetNoLargerThanUniverse | src/roc.rs:149-156 | an accepted set has no more IDs than the universe size |
| RocSize.EncodeDeltasWithin | src/roc.rs:167-170 | when the universe is at most 128^n, every gap takes at most n bytes |
| RocSize.SmallUniverseBeatsRaw | tests/property_tests.rs:89-108 | with a universe of at most 2^21, a set of more than ten IDs compresses to at most four bytes per ID |
| RocSize.EvenlySpacedDeltas | src/roc.rs:167-170 | IDs spaced by a fixed positive gap are increasing and spend the gap's varint length on every gap |
| RocSize.FiveByteGap | src/roc.rs:97-104 | 2^28 takes five varint bytes |
| RocSize.WideGapsExceedRaw | tests/property_tests.rs:89-108 | eleven IDs 2^28 apart in a universe of 2^32 - 1 compress to 52 bytes, more than their 44 raw bytes |
| RocExamples.InvalidInputsRejected | src/roc.rs:286-345 | an unsorted list, a duplicated ID and an ID equal to the universe are each refused with `InvalidInput` |
| RocExamples.ByteVarint | src/roc.rs:97-137 | a value below 0x80 is encoded as the single byte itself and decoded back from it |
| RocExamples.SingleId | src/roc.rs:328-336 | the set {42} compresses to the bytes 0x01 0x2A, which decompress back to {42} |
| RocExamples.SixIds | src/roc.rs:262-274 | the set 1, 5, 10, 20, 50, 100 survives the round trip |
| RocExamples.ThreeIds | src/roc.rs:158-173 | the set 1, 5, 10 compresses to the bytes 3, 1, 4, 5 |
| RocExamples.ZeroCountIgnoresRest | src/roc.rs:192-194 | a zero count followed by 0xFF decodes to the empty set |
| RocExamples.TwoIds | src/roc.rs:189-231 | a two-ID payload with a one-byte first ID decodes to that ID and its wrapped sum with the gap |
| RocExamples.ZeroGapAccepted | src/roc.rs:209-220 | a zero gap is accepted and repeats the previous ID |
| RocExamples.WrappingGapAccepted | src/roc.rs:213 | a gap of 2^32 - 1 wraps to an ID smaller than the previous one and is accepted |
| RocExamples.LargestU32Varint | src/roc.rs:97-104 | the largest `u32` encodes to 0xFF 0xFF 0xFF 0xFF 0x0F |
| RocExamples.PaddedVarint | src/roc.rs:113-134 | a continuation byte followed by 0x00 decodes as a two-byte varint of the low seven bits |
| RocExamples.NonCanonicalVarints | src/roc.rs:108-137 | the padded varint 0x80 0x00 decodes to 0, and a padded count is accepted by decompression |
| RocExamples.TenthByteRejected | src/roc.rs:120-124 | nine continuation bytes followed by a terminating byte are refused |
| RocExamples.HundredConsecutiveIds | src/roc.rs:305-325 | the IDs 0 to 99 compress to exactly 101 bytes, a ratio of 400/101 > 2 against their raw size, as the unit test requires |

## Left out

- `theoretical_bits`, `estimate_size` and `bits_per_id` (src/roc.rs:75-93, 234-249)
  compute floating-point logarithms and float-to-integer casts, which this model has
  no counterpart for.
- src/ans.rs is a placeholder, not a real ANS coder, and is not part of this model.
- The `IdCompressionMethod` tag in src/lib.rs carries no behaviour.
- The `ans_precision` field and the constructors (src/roc.rs:28-51) are stored but
  never read by the codec.
- Error message strings are dropped: only the two error kinds `InvalidInput` and
  `DecompressionFailed` are modelled.
- Roc.WrappingAdd: models the release-build wrap of `u32` addition. A debug build
  panics on overflow instead, and that panic is not modelled.
- Roc.CompressSet: requires fewer than 2^64 IDs, because the count is a `usize`
  widened to `u64`. A `Vec<u32>` is always far shorter than that.
- RocProperties.DecompressLayout and RocProperties.DecompressCutLayout: require fewer
  than 2^63 IDs, so that the count is a `u64` whose varint the decoder accepts. Every
  strictly increasing `u32` list is far shorter.
- RocSize.SmallUniverseBeatsRaw: proved only for universes of at most 2^21, because
  the property test's claim fails for large universes (`RocSize.WideGapsExceedRaw`).
- The benchmarks and the proptest generators are not part of this model. The tests
  serve only as the source of the properties proved.
