/**
 Which chunk size and index a validator can draw for a challenge
 (storage/validator/challenge.py), against the chunks the miner really has.
 */
module ChallengeDraw {
  import opened Arithmetic
  import opened Broadband
  import opened Chunking
  import opened Distribution
  import opened Text
  import opened Wrappers

  /** `num_chunks`: the whole chunks, or, for a size that is not larger than one chunk, the size itself. */
  function NumChunks(recorded: nat, chunkSize: nat): nat
    requires chunkSize > 0
  {
    if recorded > chunkSize then recorded / chunkSize else recorded
  }

  /** The index `random.choice(range(num_chunks))` can return. */
  predicate CanDrawIndex(recorded: nat, chunkSize: nat, index: nat)
    requires chunkSize > 0
  {
    index < NumChunks(recorded, chunkSize)
  }

  /** The indices for which the miner has a chunk. */
  predicate IsReal(length: nat, chunkSize: nat, index: nat)
    requires chunkSize > 0
  {
    index < CeilDiv(length, chunkSize)
  }

  ghost predicate AllDrawsReal(length: nat, recorded: nat, chunkSize: nat)
    requires chunkSize > 0
  {
    forall index: nat :: CanDrawIndex(recorded, chunkSize, index) ==> IsReal(length, chunkSize, index)
  }

  lemma CeilDivCovers(n: nat, d: nat)
    requires d > 0
    ensures CeilDiv(n, d) * d >= n
  {
    assert n == n / d * d + n % d;
    assert (n / d + 1) * d == n / d * d + d;
  }

  lemma CeilDivAtLeast(n: nat, recorded: nat, d: nat)
    requires d > 0 && recorded < n + d
    ensures recorded / d <= CeilDiv(n, d)
  {
    var q, c := recorded / d, CeilDiv(n, d);
    CeilDivCovers(n, d);
    assert recorded == q * d + recorded % d;
    assert (c + 1) * d == c * d + d;
    if q > c {
      MulMonotone(c + 1, q, d);
    }
  }

  lemma AllDrawsRealIff(length: nat, recorded: nat, chunkSize: nat)
    requires chunkSize > 0
    ensures AllDrawsReal(length, recorded, chunkSize) <==> NumChunks(recorded, chunkSize) <= CeilDiv(length, chunkSize)
  {
    if NumChunks(recorded, chunkSize) > CeilDiv(length, chunkSize) {
      var index: nat := CeilDiv(length, chunkSize);
      assert CanDrawIndex(recorded, chunkSize, index) && !IsReal(length, chunkSize, index);
    }
  }

  /**
   For a recorded size that is the length or the length with the overhead, and chunks
   longer than the overhead: every drawable index is real exactly when the recorded
   size exceeds the chunk size, or there is at most one index to draw.
   */
  lemma DrawsRealExactly(length: nat, recorded: nat, chunkSize: nat)
    requires recorded == length || recorded == length + BYTES_OVERHEAD
    requires chunkSize > BYTES_OVERHEAD
    ensures AllDrawsReal(length, recorded, chunkSize) <==>
            recorded > chunkSize || recorded == 0 || (recorded == 1 && length == 1)
  {
    AllDrawsRealIff(length, recorded, chunkSize);
    if recorded > chunkSize {
      CeilDivAtLeast(length, recorded, chunkSize);
    } else if length == chunkSize {
      DivUnique(length, chunkSize, 1, 0);
    } else {
      DivUnique(length, chunkSize, 0, length);
    }
  }

  /**
   Over every chunk size that can be drawn with a minimum above the overhead: all
   draws name real chunks exactly when the recorded size exceeds the minimum (sizes 0
   and 1 aside).
   */
  lemma AllSizesDrawRealExactly(length: nat, recorded: nat, minimum: nat, factor: nat)
    requires recorded == length || recorded == length + BYTES_OVERHEAD
    requires minimum > BYTES_OVERHEAD && factor > 1 && recorded > 1
    ensures (forall chunkSize: nat :: minimum <= chunkSize <= Larger(minimum, recorded / factor) ==>
               AllDrawsReal(length, recorded, chunkSize))
       <==> recorded > minimum
  {
    if recorded > minimum {
      forall chunkSize: nat | minimum <= chunkSize <= Larger(minimum, recorded / factor)
        ensures AllDrawsReal(length, recorded, chunkSize)
      {
        QuotientBelow(recorded, factor);
        DrawsRealExactly(length, recorded, chunkSize);
      }
    } else {
      assert minimum <= minimum <= Larger(minimum, recorded / factor);
      DrawsRealExactly(length, recorded, minimum);
    }
  }

  lemma QuotientBelow(n: nat, d: nat)
    requires d > 1 && n > 0
    ensures n / d < n
  {
    var q := n / d;
    assert n == q * d + n % d;
    MulMonotone(2, d, q);
    assert d * q == q * d && 2 * q <= n;
  }

  // ---------- Parts of a distributed file ----------

  /** The whole recorded chunks are real exactly when fewer bytes are missing than a chunk and the recorded rest. */
  lemma WholeAgainstStarted(length: nat, recorded: nat, c: nat)
    requires c > 0 && length <= recorded
    ensures recorded / c <= CeilDiv(length, c) <==> recorded - length < c + recorded % c
  {
    var q, n := recorded / c, CeilDiv(length, c);
    assert recorded == q * c + recorded % c;
    CeilDivBounds(length, c);
    assert (q - 1) * c == q * c - c;
    if q <= n {
      MulMonotone(q, n, c);
    } else {
      MulMonotone(n, q - 1, c);
    }
  }

  /**
   When a chunk is no longer than its recorded size: every drawable index is real exactly
   when the drawn chunk size is below the recorded one and fewer bytes are missing than
   that and the recorded rest; or there is one byte and one index.
   */
  lemma ShorterDrawsRealExactly(length: nat, recorded: nat, c: nat)
    requires c > 0 && recorded > 0 && length <= recorded
    ensures AllDrawsReal(length, recorded, c) <==>
            (c < recorded && recorded - length < c + recorded % c) || (recorded == 1 && length == 1)
  {
    AllDrawsRealIff(length, recorded, c);
    WholeAgainstStarted(length, recorded, c);
    if recorded <= c {
      if length == c {
        DivUnique(length, c, 1, 0);
      } else {
        DivUnique(length, c, 0, length);
      }
    }
  }

  /** The bytes of the payload that part i really holds. */
  function PartLength(payload: nat, chunkSize: nat, i: nat): nat {
    if (i + 1) * chunkSize <= payload then chunkSize
    else if i * chunkSize <= payload then payload - i * chunkSize
    else 0
  }

  lemma SliceLength(data: Bytes, chunkSize: nat, i: nat)
    requires chunkSize > 0 && i < CeilDiv(SizeOf(data), chunkSize)
    ensures |Slice(data, RangeAt(SizeOf(data), chunkSize, i))| == PartLength(|data|, chunkSize, i)
  {
    assert (i + 1) * chunkSize == i * chunkSize + chunkSize;
    RangesConsecutive(SizeOf(data), chunkSize, i);
  }

  /**
   Every part of a distributed file is recorded with the full part size, whatever it
   holds. Which drawn chunk sizes are safe for part i: those below the part size for
   which fewer bytes of the part are missing than the drawn size and the rest of the part
   size by it.
   */
  lemma PartDrawsRealExactly(data: Bytes, chunkSize: nat, initial: seq<seq<Uid>>, i: nat, c: nat)
    requires chunkSize > 0 && initial != [] && c > 0
    requires i < |Distribute(SizeOf(data), chunkSize, initial)|
    ensures var part := Distribute(SizeOf(data), chunkSize, initial)[i];
            var length := |Slice(data, part.range)|;
            && length == PartLength(|data|, chunkSize, i) <= part.chunkSize == chunkSize
            && (AllDrawsReal(length, part.chunkSize, c) <==>
                  || (c < chunkSize && chunkSize - length < c + chunkSize % c)
                  || (chunkSize == 1 && length == 1))
  {
    SliceLength(data, chunkSize, i);
    assert (i + 1) * chunkSize == i * chunkSize + chunkSize;
    ShorterDrawsRealExactly(PartLength(|data|, chunkSize, i), chunkSize, c);
  }

  /**
   That happens: a payload of 64 MiB and 67 bytes, for at least two groups, is cut into a
   full part and one of 67 bytes, which is recorded with 64 MiB. With a minimum of at
   least one byte and the configured factor of 4, no chunk size that can be drawn for it is safe.
   */
  lemma ShortLastPartDrawsUnreal(data: Bytes, uids: seq<Uid>, R: nat, minimum: nat, c: nat)
    requires R > 0 && |uids| / R >= 2 && |data| == MIN_CHUNK_SIZE + 67
    requires 0 < minimum <= MIN_CHUNK_SIZE / 4 && minimum <= c <= Larger(minimum, MIN_CHUNK_SIZE / 4)
    ensures ChosenChunkSize(SizeOf(data), R, uids, None) == MIN_CHUNK_SIZE
    ensures var parts := Distribute(SizeOf(data), MIN_CHUNK_SIZE, InitialGroups(uids, R));
            && |parts| == 2 && parts[1].chunkSize == MIN_CHUNK_SIZE && |Slice(data, parts[1].range)| == 67
            && !AllDrawsReal(67, MIN_CHUNK_SIZE, c)
  {
    OptimalChunkSizeCases(SizeOf(data), |uids|, R);
    DivUnique(SizeOf(data), MIN_CHUNK_SIZE, 1, 100);
    PartDrawsRealExactly(data, MIN_CHUNK_SIZE, InitialGroups(uids, R), 1, c);
  }
}
