/** Cutting data into chunks of one size (storage/shared/utils.py, `chunk_data`). */
module Chunking {
  import opened Text

  /** What `sys.getsizeof` reports beyond the length of a byte string. */
  const BYTES_OVERHEAD := 33

  function SizeOf(data: Bytes): nat {
    |data| + BYTES_OVERHEAD
  }

  /** Rounded-up quotient. */
  function CeilDiv(n: nat, d: nat): nat
    requires d > 0
  {
    if n % d == 0 then n / d else n / d + 1
  }

  function ChunkData(data: Bytes, size: nat): seq<Bytes>
    requires size > 0
    decreases |data|
  {
    if data == [] then []
    else if |data| <= size then [data]
    else [data[..size]] + ChunkData(data[size..], size)
  }

  function Join(chunks: seq<Bytes>): Bytes {
    if chunks == [] then [] else chunks[0] + Join(chunks[1..])
  }

  lemma CeilDivStep(n: nat, d: nat)
    requires d > 0 && n >= d
    ensures CeilDiv(n, d) == 1 + CeilDiv(n - d, d)
  {
    DivStep(n, d);
  }

  lemma DivStep(n: nat, d: nat)
    requires d > 0 && n >= d
    ensures n / d == 1 + (n - d) / d && n % d == (n - d) % d
  {
    var q, r := (n - d) / d, (n - d) % d;
    assert n == (q + 1) * d + r;
    DivUnique(n, d, q + 1, r);
  }

  lemma DivUnique(n: nat, d: nat, q: nat, r: nat)
    requires d > 0 && r < d && n == q * d + r
    ensures n / d == q && n % d == r
  {
    var k := n / d - q;
    assert k * d == r - n % d;
    MultipleOutside(k, d);
  }

  /** A multiple of d that is not zero is at least d away from zero. */
  lemma MultipleOutside(k: int, d: nat)
    ensures k >= 1 ==> k * d >= d
    ensures k <= -1 ==> k * d + d <= 0
  {
    if k >= 1 {
      assert (k - 1) * d >= 0;
    } else if k <= -1 {
      assert (-1 - k) * d >= 0;
    }
  }

  /** There is one chunk per started `size`, none is empty, none is longer, and together they are the data. */
  lemma {:induction false} ChunksPartition(data: Bytes, size: nat)
    requires size > 0
    ensures var chunks := ChunkData(data, size);
            && |chunks| == CeilDiv(|data|, size)
            && (forall i :: 0 <= i < |chunks| ==> 0 < |chunks[i]| <= size)
            && Join(chunks) == data
    decreases |data|
  {
    if data == [] {
      DivUnique(0, size, 0, 0);
    } else if |data| < size {
      DivUnique(|data|, size, 0, |data|);
      assert [data][1..] == [];
    } else if |data| == size {
      DivUnique(size, size, 1, 0);
      assert [data][1..] == [];
    } else {
      var rest := ChunkData(data[size..], size);
      ChunksPartition(data[size..], size);
      CeilDivStep(|data|, size);
      assert ChunkData(data, size)[1..] == rest;
    }
  }

  function Min(a: nat, b: nat): nat {
    if a <= b then a else b
  }

  /** Chunk i starts at i times the size and ends a size later, or with the data. */
  lemma {:induction false} ChunkIsSlice(data: Bytes, size: nat, i: nat)
    requires size > 0 && i < |ChunkData(data, size)|
    ensures i * size <= Min((i + 1) * size, |data|)
    ensures ChunkData(data, size)[i] == data[i * size..Min((i + 1) * size, |data|)]
    decreases |data|
  {
    assert (i + 1) * size == i * size + size;
    if i == 0 {
      assert 0 * size == 0 && 1 * size == size;
      assert data[..|data|] == data;
    } else {
      var rest := data[size..];
      ChunkIsSlice(rest, size, i - 1);
      assert i * size == (i - 1) * size + size;
      SliceAfter(data, size, (i - 1) * size, Min(i * size, |rest|));
    }
  }

  lemma SliceAfter(data: Bytes, skip: nat, from: nat, to: nat)
    requires skip <= |data| && from <= to <= |data| - skip
    ensures data[skip..][from..to] == data[skip + from..skip + to]
  {
  }

  /** The slots that the miner allocates. */
  function SlotCount(data: Bytes, size: nat): nat
    requires size > 0
  {
    SizeOf(data) / size + 1
  }

  lemma {:induction false} DivMonotone(m: nat, n: nat, d: nat)
    requires d > 0 && m <= n
    ensures m / d <= n / d
    decreases m
  {
    if m < d {
      DivUnique(m, d, 0, m);
    } else {
      DivStep(m, d);
      DivStep(n, d);
      DivMonotone(m - d, n - d, d);
    }
  }

  /** They always suffice. */
  lemma SlotsSuffice(data: Bytes, size: nat)
    requires size > 0
    ensures |ChunkData(data, size)| <= SlotCount(data, size)
  {
    ChunksPartition(data, size);
    DivMonotone(|data|, SizeOf(data), size);
  }
}
