/** The variable-length integer primitive of the ROC compressor: unsigned LEB128
    (section 7.6 of DWARF Version 4). A value is cut into 7-bit groups, least
    significant group first; every byte but the last carries the continuation bit 0x80.

    Bit operations are written arithmetically: `x & 0x7F` is `x % 0x80`,
    `(x as u8) | 0x80` is `x % 0x80 + 0x80`, `x >> 7` is `x / 0x80`, and OR-ing a group
    into bits the accumulator has not reached yet is addition. */
module Varint {
  import opened Ints
  import opened Errors

  /* ---------------------------------------------------------------------------
     Reference notions: framing, group value, canonical form
     --------------------------------------------------------------------------- */

  /** 128^k, the weight of the k-th 7-bit group. */
  function Pow128(k: nat): (p: nat)
    ensures p >= 1
  {
    if k == 0 then 1 else 0x80 * Pow128(k - 1)
  }

  /** The first `n` bytes of `buf` are exactly one varint: each byte before the
      n-th carries the continuation bit and the n-th does not. */
  predicate Terminates(buf: seq<uint8>, n: nat) {
    && 1 <= n <= |buf|
    && buf[n - 1] < 0x80
    && forall i :: 0 <= i < n - 1 ==> buf[i] >= 0x80
  }

  /** The number carried by the low 7 bits of the first `n` bytes, least significant first. */
  function GroupValue(buf: seq<uint8>, n: nat): nat
    requires n <= |buf|
  {
    if n == 0 then 0 else buf[0] % 0x80 + 0x80 * GroupValue(buf[1..], n - 1)
  }

  /** A varint in canonical form: no zero group after the first. */
  predicate Canonical(buf: seq<uint8>, n: nat)
    requires 1 <= n <= |buf|
  {
    n == 1 || buf[n - 1] != 0
  }

  /* ---------------------------------------------------------------------------
     encode_varint
     --------------------------------------------------------------------------- */

  /** `encode_varint`: while the value is at least 0x80, emit its low 7 bits with the
      continuation bit set and shift right by 7; then emit the remainder as is. */
  function EncodeVarint(v: uint64): (r: seq<uint8>)
    decreases v
  {
    if v < 0x80 then
      var last: uint8 := v;
      [last]
    else
      var low: uint8 := v % 0x80 + 0x80;
      [low] + EncodeVarint(v / 0x80)
  }

  /** The encoder emits one framed varint in canonical form, whose groups add up to `v`,
      and it is the shortest such: `v` needs all of its groups. */
  lemma EncodeVarintFraming(v: uint64)
    ensures Terminates(EncodeVarint(v), |EncodeVarint(v)|)
    ensures Canonical(EncodeVarint(v), |EncodeVarint(v)|)
    ensures GroupValue(EncodeVarint(v), |EncodeVarint(v)|) == v
    ensures v < Pow128(|EncodeVarint(v)|)
    ensures |EncodeVarint(v)| == 1 || Pow128(|EncodeVarint(v)| - 1) <= v
  {
    EncodeVarintTerminates(v);
    EncodeVarintCanonical(v);
    EncodeVarintValue(v);
    EncodeVarintSize(v);
  }

  lemma {:induction false} EncodeVarintTerminates(v: uint64)
    ensures Terminates(EncodeVarint(v), |EncodeVarint(v)|)
    decreases v
  {
    if v >= 0x80 {
      var r, rest := EncodeVarint(v), EncodeVarint(v / 0x80);
      EncodeVarintTerminates(v / 0x80);
      EncodeVarintStep(v, v % 0x80 + 0x80, v / 0x80);
      assert forall i :: 1 <= i < |r| ==> r[i] == rest[i - 1];
    }
  }

  lemma {:induction false} EncodeVarintCanonical(v: uint64)
    ensures Canonical(EncodeVarint(v), |EncodeVarint(v)|)
    decreases v
  {
    if v >= 0x80 {
      var r, rest := EncodeVarint(v), EncodeVarint(v / 0x80);
      EncodeVarintCanonical(v / 0x80);
      EncodeVarintStep(v, v % 0x80 + 0x80, v / 0x80);
      assert r[|r| - 1] == rest[|rest| - 1];
      if |rest| == 1 {
        assert rest == [v / 0x80];
      }
    }
  }

  lemma {:induction false} EncodeVarintValue(v: uint64)
    ensures GroupValue(EncodeVarint(v), |EncodeVarint(v)|) == v
    decreases v
  {
    if v < 0x80 {
      assert EncodeVarint(v)[1..] == [];
    } else {
      var r, rest := EncodeVarint(v), EncodeVarint(v / 0x80);
      EncodeVarintValue(v / 0x80);
      EncodeVarintStep(v, v % 0x80 + 0x80, v / 0x80);
      assert r[1..] == rest;
      assert GroupValue(r, |r|) == r[0] % 0x80 + 0x80 * (v / 0x80);
    }
  }

  lemma {:induction false} EncodeVarintSize(v: uint64)
    ensures v < Pow128(|EncodeVarint(v)|)
    ensures |EncodeVarint(v)| == 1 || Pow128(|EncodeVarint(v)| - 1) <= v
    decreases v
  {
    if v >= 0x80 {
      var r, rest := EncodeVarint(v), EncodeVarint(v / 0x80);
      EncodeVarintSize(v / 0x80);
      EncodeVarintStep(v, v % 0x80 + 0x80, v / 0x80);
      assert |r| == |rest| + 1;
      assert Pow128(|r|) == 0x80 * Pow128(|rest|);
      if |rest| > 1 {
        assert Pow128(|rest|) == 0x80 * Pow128(|rest| - 1);
      }
    }
  }

  /** Size facts of the encoder: one byte exactly for values below 0x80, at most five for
      a `u32`, at most nine exactly below 2^63 and at most ten for any `u64`. */
  lemma EncodeVarintLength(v: uint64)
    ensures |EncodeVarint(v)| == 1 <==> v < 0x80
    ensures v < TWO_TO_THE_32 ==> |EncodeVarint(v)| <= 5
    ensures v < TWO_TO_THE_63 <==> |EncodeVarint(v)| <= 9
    ensures |EncodeVarint(v)| <= 10
  {
    var n := |EncodeVarint(v)|;
    EncodeVarintFraming(v);
    Pow128Values();
    if n > 1 {
      Pow128Monotone(1, n - 1);
    }
    if v < TWO_TO_THE_32 && n > 5 {
      Pow128Monotone(5, n - 1);
    }
    if v < TWO_TO_THE_63 && n > 9 {
      Pow128Monotone(9, n - 1);
    }
    if n <= 9 {
      Pow128Monotone(n, 9);
    }
    if n > 10 {
      Pow128Monotone(10, n - 1);
    }
  }

  /** A larger value never takes fewer bytes, so a small gap is never dearer than a large one. */
  lemma EncodeVarintLengthMonotone(a: uint64, b: uint64)
    requires a <= b
    ensures |EncodeVarint(a)| <= |EncodeVarint(b)|
  {
    EncodeVarintFraming(a);
    EncodeVarintFraming(b);
    var na, nb := |EncodeVarint(a)|, |EncodeVarint(b)|;
    if na > 1 {
      Pow128BelowMeansShorter(b, na - 1, nb);
    }
  }

  /** The encoder spends no more groups than the value needs: below 128^n, at most n bytes. */
  lemma EncodeVarintFits(v: uint64, n: nat)
    requires n >= 1 && v < Pow128(n)
    ensures |EncodeVarint(v)| <= n
  {
    EncodeVarintFraming(v);
    if |EncodeVarint(v)| > 1 {
      Pow128BelowMeansShorter(v, |EncodeVarint(v)| - 1, n);
    }
  }

  /* ---------------------------------------------------------------------------
     decode_varint
     --------------------------------------------------------------------------- */

  /** One turn of the `decode_varint` loop and all turns after it, reading group `k` (the
      loop's `shift` is `7 * k`) from `buf`, the part of the input not read yet. The
      end-of-input check comes before the shift check, as in the source. */
  function DecodeGroups(buf: seq<uint8>, k: nat): (r: Result<(nat, nat)>)
    ensures r.Err? ==> r.error == DecompressionFailed
    ensures r.Ok? ==>
              && 1 <= r.value.1 <= |buf|
              && k + r.value.1 <= 9
              && r.value.0 < Pow128(9 - k)
    decreases |buf|
  {
    if |buf| == 0 then
      Err(DecompressionFailed)
    else if 7 * k > 56 then
      Err(DecompressionFailed)
    else if buf[0] < 0x80 then
      Ok((buf[0], 1))
    else
      var more :- DecodeGroups(buf[1..], k + 1);
      Ok((buf[0] % 0x80 + 0x80 * more.0, more.1 + 1))
  }

  /** `decode_varint`: returns the value and the number of bytes consumed, between one
      and nine; the value fits in 63 bits. */
  function DecodeVarint(buf: seq<uint8>): (r: Result<(uint64, nat)>)
    ensures r.Err? ==> r.error == DecompressionFailed
    ensures r.Ok? ==> 1 <= r.value.1 <= 9 && r.value.1 <= |buf| && r.value.0 < TWO_TO_THE_63
  {
    Pow128Values();
    var p :- DecodeGroups(buf, 0);
    Ok((p.0, p.1))
  }

  lemma {:induction false} DecodeGroupsSpec(buf: seq<uint8>, k: nat)
    ensures DecodeGroups(buf, k).Err? <==> forall i :: 0 <= i < |buf| && k + i <= 8 ==> buf[i] >= 0x80
    ensures DecodeGroups(buf, k).Ok? ==>
              && Terminates(buf, DecodeGroups(buf, k).value.1)
              && DecodeGroups(buf, k).value.0 == GroupValue(buf, DecodeGroups(buf, k).value.1)
    decreases |buf|
  {
    if |buf| == 0 || 7 * k > 56 {
    } else if buf[0] < 0x80 {
      assert buf[1..][..0] == [];
    } else {
      DecodeGroupsSpec(buf[1..], k + 1);
      DecodeGroupsSpecStep(buf, k);
    }
  }

  /** The inductive step of `DecodeGroupsSpec`: a continuation byte in front. */
  lemma DecodeGroupsSpecStep(buf: seq<uint8>, k: nat)
    requires |buf| > 0 && k <= 8 && buf[0] >= 0x80
    requires DecodeGroups(buf[1..], k + 1).Err? <==>
               forall i :: 0 <= i < |buf[1..]| && k + 1 + i <= 8 ==> buf[1..][i] >= 0x80
    requires DecodeGroups(buf[1..], k + 1).Ok? ==>
               && Terminates(buf[1..], DecodeGroups(buf[1..], k + 1).value.1)
               && DecodeGroups(buf[1..], k + 1).value.0 == GroupValue(buf[1..], DecodeGroups(buf[1..], k + 1).value.1)
    ensures DecodeGroups(buf, k).Err? <==> forall i :: 0 <= i < |buf| && k + i <= 8 ==> buf[i] >= 0x80
    ensures DecodeGroups(buf, k).Ok? ==>
              && Terminates(buf, DecodeGroups(buf, k).value.1)
              && DecodeGroups(buf, k).value.0 == GroupValue(buf, DecodeGroups(buf, k).value.1)
  {
    var tail := buf[1..];
    assert forall i :: 1 <= i < |buf| ==> buf[i] == tail[i - 1];
    if DecodeGroups(tail, k + 1).Ok? {
      var (w, m) := DecodeGroups(tail, k + 1).value;
      DecodeGroupsStep(buf, k, w, m);
    }
  }

  /** `decode_varint` fails exactly when none of the first nine bytes (within the buffer)
      ends the varint: the buffer runs out first, or a tenth byte would be read at shift
      63 > 56. On success it has read exactly one framed varint and returns its groups. */
  lemma DecodeVarintSpec(buf: seq<uint8>)
    ensures DecodeVarint(buf).Err? <==> forall i :: 0 <= i < |buf| && i < 9 ==> buf[i] >= 0x80
    ensures DecodeVarint(buf).Ok? ==>
              && Terminates(buf, DecodeVarint(buf).value.1)
              && DecodeVarint(buf).value.0 == GroupValue(buf, DecodeVarint(buf).value.1)
  {
    DecodeGroupsSpec(buf, 0);
  }

  /* ---------------------------------------------------------------------------
     Round trip and its limits
     --------------------------------------------------------------------------- */

  lemma {:induction false} DecodeGroupsOfEncoding(v: uint64, rest: seq<uint8>, k: nat)
    requires k <= 8 && v < Pow128(9 - k)
    ensures DecodeGroups(EncodeVarint(v) + rest, k) == Ok((v, |EncodeVarint(v)|))
    decreases v
  {
    if v < 0x80 {
      var buf := EncodeVarint(v) + rest;
      assert buf == [v] + rest;
      assert DecodeGroups(buf, k) == Ok((v, 1));
    } else {
      assert k < 8 && v / 0x80 < Pow128(9 - (k + 1)) by {
        assert Pow128(9 - k) == 0x80 * Pow128(8 - k);
        DivBound(v, Pow128(8 - k));
      }
      DecodeGroupsOfEncoding(v / 0x80, rest, k + 1);
      DecodeEncodedGroupStep(v, rest, k);
    }
  }

  /** Encode-then-decode is the identity for every value below 2^63, and the decoder stops
      exactly at the end of the encoding whatever bytes follow it. */
  lemma VarintRoundTrip(v: uint64, rest: seq<uint8>)
    requires v < TWO_TO_THE_63
    ensures DecodeVarint(EncodeVarint(v) + rest) == Ok((v, |EncodeVarint(v)|))
  {
    Pow128Values();
    DecodeGroupsOfEncoding(v, rest, 0);
  }

  /** The decoder refuses the encoder's own ten-byte output for values of 2^63 and above. */
  lemma DecodeRejectsWideValues(v: uint64, rest: seq<uint8>)
    requires v >= TWO_TO_THE_63
    ensures |EncodeVarint(v)| == 10
    ensures DecodeVarint(EncodeVarint(v) + rest) == Err(DecompressionFailed)
  {
    EncodeVarintLength(v);
    EncodeVarintFraming(v);
    var buf := EncodeVarint(v) + rest;
    assert forall i :: 0 <= i < |buf| && i < 9 ==> buf[i] == EncodeVarint(v)[i];
    DecodeVarintSpec(buf);
  }

  /** A varint cut short fails to decode. */
  lemma CutVarintFails(v: uint64, cut: nat)
    requires cut < |EncodeVarint(v)|
    ensures DecodeVarint(EncodeVarint(v)[..cut]) == Err(DecompressionFailed)
  {
    EncodeVarintFraming(v);
    EncodeVarintLength(v);
    DecodeVarintSpec(EncodeVarint(v)[..cut]);
  }

  lemma {:induction false} DecodeGroupsIgnoresTail(buf: seq<uint8>, rest: seq<uint8>, k: nat)
    requires DecodeGroups(buf, k).Ok?
    ensures DecodeGroups(buf + rest, k) == DecodeGroups(buf, k)
    decreases |buf|
  {
    if buf[0] >= 0x80 {
      assert (buf + rest)[1..] == buf[1..] + rest;
      DecodeGroupsIgnoresTail(buf[1..], rest, k + 1);
    }
  }

  /** A varint is self-delimiting: bytes after it never change what is decoded. */
  lemma DecodeVarintIgnoresTail(buf: seq<uint8>, rest: seq<uint8>)
    requires DecodeVarint(buf).Ok?
    ensures DecodeVarint(buf + rest) == DecodeVarint(buf)
  {
    DecodeGroupsIgnoresTail(buf, rest, 0);
  }

  lemma {:induction false} DecodeGroupsPrefix(buf: seq<uint8>, k: nat, cut: nat)
    requires DecodeGroups(buf, k).Ok? && cut <= |buf|
    ensures cut >= DecodeGroups(buf, k).value.1 ==> DecodeGroups(buf[..cut], k) == DecodeGroups(buf, k)
    ensures cut < DecodeGroups(buf, k).value.1 ==> DecodeGroups(buf[..cut], k).Err?
    decreases |buf|
  {
    if cut > 0 && buf[0] >= 0x80 {
      assert buf[..cut][1..] == buf[1..][..cut - 1];
      DecodeGroupsPrefix(buf[1..], k + 1, cut - 1);
    }
  }

  /** A prefix of the input that holds the whole varint decodes as the input does; one
      that stops inside it fails. */
  lemma DecodeVarintPrefix(buf: seq<uint8>, cut: nat)
    requires DecodeVarint(buf).Ok? && cut <= |buf|
    ensures cut >= DecodeVarint(buf).value.1 ==> DecodeVarint(buf[..cut]) == DecodeVarint(buf)
    ensures cut < DecodeVarint(buf).value.1 ==> DecodeVarint(buf[..cut]) == Err(DecompressionFailed)
  {
    DecodeGroupsPrefix(buf, 0, cut);
  }

  /** The canonical framed form of a value is unique: it is what the encoder emits. */
  lemma {:induction false} CanonicalEncodingUnique(buf: seq<uint8>, n: nat)
    requires Terminates(buf, n) && Canonical(buf, n) && n <= 9
    ensures GroupValue(buf, n) < TWO_TO_THE_63
    ensures EncodeVarint(GroupValue(buf, n)) == buf[..n]
    decreases n
  {
    if n == 1 {
      assert GroupValue(buf, n) == buf[0];
      assert buf[..n] == [buf[0]];
    } else {
      TerminatesTail(buf, n);
      CanonicalEncodingUnique(buf[1..], n - 1);
      CanonicalStep(buf, n);
    }
  }

  /** Decode-then-encode gives back the bytes read exactly when they were canonical; the
      decoder also accepts padded forms such as 0x80 0x00, which the encoder never emits. */
  lemma DecodeThenEncode(buf: seq<uint8>)
    requires DecodeVarint(buf).Ok?
    ensures var (v, n) := DecodeVarint(buf).value;
            Canonical(buf, n) <==> EncodeVarint(v) == buf[..n]
  {
    var (v, n) := DecodeVarint(buf).value;
    DecodeVarintSpec(buf);
    EncodeVarintFraming(v);
    if Canonical(buf, n) {
      CanonicalEncodingUnique(buf, n);
    }
  }

  /* ---------------------------------------------------------------------------
     Helpers
     --------------------------------------------------------------------------- */

  lemma {:induction false} Pow128Monotone(i: nat, j: nat)
    requires i <= j
    ensures Pow128(i) <= Pow128(j)
    decreases j
  {
    if i < j {
      Pow128Monotone(i, j - 1);
    }
  }

  /** Nine groups carry 63 bits, ten carry 70. */
  lemma Pow128Values()
    ensures Pow128(1) == 0x80
    ensures Pow128(5) == 0x8_0000_0000
    ensures Pow128(9) == TWO_TO_THE_63
    ensures Pow128(10) == 0x40_0000_0000_0000_0000
  {
  }

  /** A number in [128^i, 128^j) forces i < j. */
  lemma Pow128BelowMeansShorter(x: nat, i: nat, j: nat)
    requires Pow128(i) <= x < Pow128(j)
    ensures i < j
  {
    if j <= i {
      Pow128Monotone(j, i);
    }
  }

  lemma DivBound(v: nat, p: nat)
    requires v < 0x80 * p
    ensures v / 0x80 < p
  {
  }

  /** A continuation byte followed by groups worth `high`. */
  lemma GroupSplit(first: uint8, high: nat, v: nat)
    requires 0x80 <= first && v == first % 0x80 + 0x80 * high
    ensures v / 0x80 == high
    ensures v % 0x80 + 0x80 == first
    ensures high >= 1 ==> v >= 0x80
  {
  }

  lemma EncodeVarintStep(v: uint64, first: uint8, w: uint64)
    requires v >= 0x80 && first == v % 0x80 + 0x80 && w == v / 0x80
    ensures EncodeVarint(v) == [first] + EncodeVarint(w)
  {
  }

  /** Reading a continuation byte in front of a successfully decoded tail. */
  lemma DecodeGroupsStep(buf: seq<uint8>, k: nat, high: nat, used: nat)
    requires |buf| > 0 && k <= 8 && buf[0] >= 0x80
    requires DecodeGroups(buf[1..], k + 1) == Ok((high, used))
    ensures DecodeGroups(buf, k) == Ok((buf[0] % 0x80 + 0x80 * high, used + 1))
  {
  }

  /** The inductive step of the round trip: one more group in front. */
  lemma DecodeEncodedGroupStep(v: uint64, rest: seq<uint8>, k: nat)
    requires v >= 0x80 && k < 8
    requires DecodeGroups(EncodeVarint(v / 0x80) + rest, k + 1) == Ok((v / 0x80, |EncodeVarint(v / 0x80)|))
    ensures DecodeGroups(EncodeVarint(v) + rest, k) == Ok((v, |EncodeVarint(v)|))
  {
    var first, tail := v % 0x80 + 0x80, EncodeVarint(v / 0x80);
    EncodeVarintStep(v, first, v / 0x80);
    var buf := EncodeVarint(v) + rest;
    assert buf == [first] + (tail + rest);
    assert buf[1..] == tail + rest;
    DecodeGroupsStep(buf, k, v / 0x80, |tail|);
    GroupSplit(first, v / 0x80, v);
  }

  lemma {:induction false} GroupValueBound(buf: seq<uint8>, n: nat)
    requires n <= |buf|
    ensures GroupValue(buf, n) < Pow128(n)
    decreases n
  {
    if n > 0 {
      GroupValueBound(buf[1..], n - 1);
    }
  }

  lemma TerminatesTail(buf: seq<uint8>, n: nat)
    requires Terminates(buf, n) && n > 1
    ensures buf[0] >= 0x80 && Terminates(buf[1..], n - 1)
  {
    assert forall i :: 0 <= i < n - 2 ==> buf[1..][i] == buf[i + 1];
  }

  lemma PrefixSplit(buf: seq<uint8>, n: nat)
    requires 1 <= n <= |buf|
    ensures buf[..n] == [buf[0]] + buf[1..][..n - 1]
  {
  }

  lemma CanonicalValueBound(buf: seq<uint8>, n: nat)
    requires n <= |buf| && n <= 9
    ensures GroupValue(buf, n) < TWO_TO_THE_63
  {
    GroupValueBound(buf, n);
    Pow128Monotone(n, 9);
    Pow128Values();
  }

  /** One more leading continuation byte in front of a canonical varint. */
  lemma CanonicalStep(buf: seq<uint8>, n: nat)
    requires Terminates(buf, n) && Canonical(buf, n) && 1 < n <= 9
    requires GroupValue(buf[1..], n - 1) < TWO_TO_THE_63
    requires EncodeVarint(GroupValue(buf[1..], n - 1)) == buf[1..][..n - 1]
    ensures GroupValue(buf, n) < TWO_TO_THE_63
    ensures EncodeVarint(GroupValue(buf, n)) == buf[..n]
  {
    var v := GroupValue(buf, n);
    var w := GroupValue(buf[1..], n - 1);
    assert v < TWO_TO_THE_63 by {
      CanonicalValueBound(buf, n);
    }
    assert w != 0 by {
      assert EncodeVarint(w)[n - 2] == buf[n - 1];
    }
    assert v == buf[0] % 0x80 + 0x80 * w;
    assert buf[0] >= 0x80;
    GroupSplit(buf[0], w, v);
    EncodeVarintStep(v, buf[0], w);
    PrefixSplit(buf, n);
  }
}
