/**
 * Fixed-size slicing of a byte string, as the server does to the file it
 * returns (`[data[i:i+CHUNK_SIZE] for i in range(0, len(data), CHUNK_SIZE)]`)
 * and as the client's `file.read(CHUNK_SIZE)` loop does to the file it uploads.
 */
module Chunking {
  import opened Wire
  import opened Seqs

  function Min(a: int, b: int): (r: int)
  {
    if a <= b then a else b
  }

  /** The consecutive `size`-byte pieces of `data`; the last may be shorter. */
  function Chunks(data: Bytes, size: nat): (r: seq<Bytes>)
    requires size > 0
    decreases |data|
  {
    if data == [] then []
    else if |data| <= size then [data]
    else [data[..size]] + Chunks(data[size..], size)
  }

  /** Concatenating the chunks in order gives the data back. */
  lemma {:induction false} FlattenChunks(data: Bytes, size: nat)
    requires size > 0
    ensures Flatten(Chunks(data, size)) == data
    decreases |data|
  {
    if |data| > size {
      var r := Chunks(data, size);
      assert r[1..] == Chunks(data[size..], size);
      FlattenChunks(data[size..], size);
      assert data == data[..size] + data[size..];
    } else if data != [] {
      assert Flatten([data]) == data + Flatten([]);
    }
  }

  /** Every chunk has between 1 and `size` bytes. */
  lemma {:induction false} ChunkBounds(data: Bytes, size: nat)
    requires size > 0
    ensures NonEmptyFrames(Chunks(data, size))
    ensures forall j :: 0 <= j < |Chunks(data, size)| ==> |Chunks(data, size)[j]| <= size
    decreases |data|
  {
    if |data| > size {
      var r := Chunks(data, size);
      ChunkBounds(data[size..], size);
      assert forall j :: 1 <= j < |r| ==> r[j] == Chunks(data[size..], size)[j - 1];
    }
  }

  /**
   * Every chunk but the last has exactly `size` bytes, the last has 1 to
   * `size`, and there are ceil(|data| / size) of them: none for empty data.
   */
  lemma {:induction false} ChunkSizes(data: Bytes, size: nat)
    requires size > 0
    ensures var r := Chunks(data, size);
      && (r == [] <==> data == [])
      && (forall j :: 0 <= j < |r| - 1 ==> |r[j]| == size)
      && (r != [] ==> 1 <= |r[|r| - 1]| <= size)
      && (r != [] ==> (|r| - 1) * size < |data| <= |r| * size)
    decreases |data|
  {
    var r := Chunks(data, size);
    if |data| > size {
      var rest := Chunks(data[size..], size);
      ChunkSizes(data[size..], size);
      assert r == [data[..size]] + rest;
      assert forall j :: 1 <= j < |r| ==> r[j] == rest[j - 1];
      assert (|rest| - 1) * size < |data| - size <= |rest| * size;
      assert (|r| - 1) * size == |rest| * size;
      assert |r| * size == |rest| * size + size;
    }
  }

  /** The number of chunks, as Python's range() yields their start offsets. */
  lemma ChunkCount(data: Bytes, size: nat)
    requires size > 0
    ensures |Chunks(data, size)| == (|data| + size - 1) / size
  {
    ChunkSizes(data, size);
    if data != [] {
      CeilDiv(|data|, |Chunks(data, size)|, size);
    }
  }

  /** `n` blocks of `size` are just enough for `len` exactly when `n` is `ceil(len / size)`. */
  lemma CeilDiv(len: int, n: int, size: int)
    requires size > 0 && (n - 1) * size < len <= n * size
    ensures (len + size - 1) / size == n
  {
    assert (n - 1) * size == n * size - size;
    assert (n + 1) * size == n * size + size;
    DivBetween(len + size - 1, size, n);
  }

  lemma DivBetween(x: int, d: int, q: int)
    requires d > 0 && q * d <= x < (q + 1) * d
    ensures x / d == q
  {
    var k := x / d;
    assert k * d <= x < k * d + d;
    if k > q {
      MulLe(q + 1, k, d);
    } else if k < q {
      MulLe(k + 1, q, d);
    }
  }

  lemma MulLe(a: int, b: int, d: int)
    requires a <= b && d >= 0
    ensures a * d <= b * d
  {
    assert b * d - a * d == (b - a) * d;
  }

  /** Chunk `j` is the slice `data[j*size : (j+1)*size]`, the comprehension's element. */
  lemma {:induction false} ChunkAt(data: Bytes, size: nat, j: nat)
    requires size > 0 && j < |Chunks(data, size)|
    ensures j * size < |data|
    ensures Chunks(data, size)[j] == data[j * size .. Min((j + 1) * size, |data|)]
    decreases j
  {
    var r := Chunks(data, size);
    if j > 0 {
      assert |data| > size;
      var rest := data[size..];
      assert r[j] == Chunks(rest, size)[j - 1];
      ChunkAt(rest, size, j - 1);
      var p := (j - 1) * size;
      Distrib(j, size);
      assert j * size == p + size && (j + 1) * size == j * size + size;
      var q := Min(j * size, |rest|);
      assert |rest| + size == |data|;
      assert Min((j + 1) * size, |data|) == q + size;
      DropSlice(data, size, p, q);
    }
  }

  lemma Distrib(j: int, size: int)
    ensures j * size == (j - 1) * size + size
    ensures (j + 1) * size == j * size + size
  {
  }
}
