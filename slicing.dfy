/**
  * The browser side of a chunked upload (the script on the upload page):
  * the file is cut into 2 MiB slices, indexed from 0, and posted one after
  * another. The first request is sent before the loop test, so an empty
  * file still posts one (empty) chunk 0.
  */
module Slicing {
  import Files

  type Byte = Files.Byte

  /** `2 * 1024 * 1024`. */
  const ChunkSize: nat := 2 * 1024 * 1024

  /** `Math.ceil(file.size / chunkSize)`: the fewest slices that cover `size` bytes. */
  function TotalChunks(size: nat): (n: nat)
    ensures size <= n * ChunkSize
    ensures n > 0 ==> (n - 1) * ChunkSize < size
  {
    (size + ChunkSize - 1) / ChunkSize
  }

  /** How many chunk requests the client posts: chunk 0 always, then while `chunkIndex < totalChunks`. */
  function ChunksSent(size: nat): (n: nat)
    ensures n >= 1
    ensures size <= n * ChunkSize
  {
    if TotalChunks(size) == 0 then 1 else TotalChunks(size)
  }

  /** `file.slice(start, end)` with `start = i * chunkSize`, `end = min(start + chunkSize, size)`. */
  function Slice(data: seq<Byte>, i: nat): (r: seq<Byte>)
    ensures |r| <= ChunkSize
    ensures i * ChunkSize < |data| ==> r == data[i * ChunkSize..Min((i + 1) * ChunkSize, |data|)]
    ensures |data| <= i * ChunkSize ==> r == []
  {
    var start := i * ChunkSize;
    var end := Min(start + ChunkSize, |data|);
    if start < end then data[start..end] else []
  }

  function Min(a: int, b: int): int {
    if a <= b then a else b
  }

  /** The chunks in the order the client posts them. */
  function Slices(data: seq<Byte>): (s: seq<seq<Byte>>)
    ensures |s| == ChunksSent(|data|)
    ensures forall i | 0 <= i < |s| :: s[i] == Slice(data, i)
  {
    seq(ChunksSent(|data|), i requires 0 <= i => Slice(data, i))
  }

  /** The bytes of a sequence of chunks, one after another. */
  function Concat(chunks: seq<seq<Byte>>): seq<Byte> {
    if chunks == [] then [] else Concat(chunks[..|chunks| - 1]) + chunks[|chunks| - 1]
  }

  lemma {:induction false} ConcatAppend(a: seq<seq<Byte>>, b: seq<seq<Byte>>)
    ensures Concat(a + b) == Concat(a) + Concat(b)
    decreases |b|
  {
    if b == [] {
      assert a + b == a;
    } else {
      var c := b[..|b| - 1];
      var ab := a + b;
      assert ab[..|ab| - 1] == a + c;
      assert ab[|ab| - 1] == b[|b| - 1];
      assert Concat(ab) == Concat(a + c) + b[|b| - 1];
      assert Concat(b) == Concat(c) + b[|b| - 1];
      ConcatAppend(a, c);
    }
  }

  /** The first `k` slices hold exactly the first `min(k * 2 MiB, n)` bytes. */
  lemma {:induction false} ConcatFirstSlices(data: seq<Byte>, k: nat)
    ensures Concat(seq(k, i requires 0 <= i => Slice(data, i))) == data[..Min(k * ChunkSize, |data|)]
  {
    var s := seq(k, i requires 0 <= i => Slice(data, i));
    if k > 0 {
      var t := seq(k - 1, i requires 0 <= i => Slice(data, i));
      assert s[..k - 1] == t;
      ConcatFirstSlices(data, k - 1);
      var lo := Min((k - 1) * ChunkSize, |data|);
      var hi := Min(k * ChunkSize, |data|);
      assert k * ChunkSize == (k - 1) * ChunkSize + ChunkSize;
      assert Concat(s) == Concat(t) + Slice(data, k - 1);
      if (k - 1) * ChunkSize < |data| {
        assert Slice(data, k - 1) == data[lo..hi];
      } else {
        assert lo == hi;
      }
      assert data[..hi] == data[..lo] + data[lo..hi];
    }
  }

  /** Posting the slices and concatenating them in index order gives back the file. */
  lemma SlicesRoundTrip(data: seq<Byte>)
    ensures Concat(Slices(data)) == data
  {
    var n := ChunksSent(|data|);
    ConcatFirstSlices(data, n);
    assert Slices(data) == seq(n, i requires 0 <= i => Slice(data, i));
    assert data[..Min(n * ChunkSize, |data|)] == data;
  }

  /** Every slice but the last is a full 2 MiB, and only an empty file has an empty slice. */
  lemma SliceSizes(data: seq<Byte>, i: nat)
    requires i < ChunksSent(|data|)
    ensures i + 1 < ChunksSent(|data|) ==> |Slice(data, i)| == ChunkSize
    ensures |data| > 0 ==> |Slice(data, i)| > 0
  {
    if i + 1 < ChunksSent(|data|) {
      assert (i + 1) * ChunkSize <= (ChunksSent(|data|) - 1) * ChunkSize;
    }
  }
}
