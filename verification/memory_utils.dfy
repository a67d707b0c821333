/**
 * `chunk_list`: a list cut into consecutive slices of `chunk_size` items for
 * batch processing. The generator is modelled by the list of the chunks it
 * yields, in order.
 */
module MemoryUtils {
  import opened Wrappers
  import opened PyStr

  /** The slices `items[i:i + size]` for `i` in `range(0, len(items), size)`. */
  function Chunks<T>(items: seq<T>, size: nat): (r: seq<seq<T>>)
    requires size > 0
    ensures forall k :: 0 <= k < |r| ==> 0 < |r[k]| <= size
    decreases |items|
  {
    if items == [] then []
    else if |items| <= size then [items]
    else [items[..size]] + Chunks(items[size..], size)
  }

  /** The chunks put back together. */
  function Flatten<T>(chunks: seq<seq<T>>): seq<T> {
    if chunks == [] then [] else chunks[0] + Flatten(chunks[1..])
  }

  /** What iterating over `range(0, n, 0)` raises. */
  function ZeroStepError(): Str {
    Lit("range() arg 3 must not be zero")
  }

  /**
   * `chunk_list(items, chunk_size)`: a zero size makes `range` raise when
   * iteration starts, and a negative size gives an empty range.
   */
  function ChunkList<T>(items: seq<T>, chunkSize: int): (r: Result<seq<seq<T>>, Str>)
    ensures r.Err? <==> chunkSize == 0
    ensures chunkSize < 0 ==> r == Ok([])
    ensures chunkSize > 0 ==> r.Ok? && forall k :: 0 <= k < |r.value| ==> 0 < |r.value[k]| <= chunkSize
  {
    if chunkSize == 0 then Err(ZeroStepError())
    else if chunkSize < 0 then Ok([])
    else Ok(Chunks(items, chunkSize))
  }

  /** Putting the chunks back together gives the list. */
  lemma {:induction false} ChunksFlatten<T>(items: seq<T>, size: nat)
    requires size > 0
    ensures Flatten(Chunks(items, size)) == items
    decreases |items|
  {
    if items != [] && |items| > size {
      var rest := Chunks(items[size..], size);
      ChunksFlatten(items[size..], size);
      assert ([items[..size]] + rest)[1..] == rest;
      assert items[..size] + items[size..] == items;
    } else if items != [] {
      assert Flatten([items]) == items + Flatten([]);
    }
  }

  /** Every chunk but the last holds exactly `size` items. */
  lemma {:induction false} ChunksFull<T>(items: seq<T>, size: nat)
    requires size > 0
    ensures forall k :: 0 <= k < |Chunks(items, size)| - 1 ==> |Chunks(items, size)[k]| == size
    decreases |items|
  {
    if items != [] && |items| > size {
      ChunksFull(items[size..], size);
    }
  }

  /** There are ceil(len(items) / size) chunks: none for an empty list. */
  lemma ChunksCount<T>(items: seq<T>, size: nat)
    requires size > 0
    ensures |Chunks(items, size)| == (|items| + size - 1) / size
  {
    var c := |Chunks(items, size)|;
    ChunksBounds(items, size);
    DivUnique(|items| + size - 1, size, c);
  }

  /** The chunks cover the list: `(c - 1) * size < len(items) <= c * size`, as a ceiling does. */
  lemma {:induction false} ChunksBounds<T>(items: seq<T>, size: nat)
    requires size > 0
    ensures var c := |Chunks(items, size)|;
      c * size <= |items| + size - 1 < c * size + size
    decreases |items|
  {
    if items != [] && |items| > size {
      var c := |Chunks(items[size..], size)|;
      ChunksBounds(items[size..], size);
      assert (c + 1) * size == c * size + size;
    }
  }

  /** The quotient is the one `q` with `q * d <= n < q * d + d`. */
  lemma DivUnique(n: int, d: int, q: int)
    requires d > 0 && q * d <= n < q * d + d
    ensures n / d == q
  {
    var k := n / d - q;
    assert k * d == (n / d) * d - q * d;
    assert n / d * d + n % d == n;
  }

  /** Chunk `k` is the slice `items[k * size : (k + 1) * size]`, the one the loop yields at `i = k * size`. */
  lemma {:induction false} ChunksAt<T>(items: seq<T>, size: nat, k: nat)
    requires size > 0 && k < |Chunks(items, size)|
    ensures k * size < |items|
    ensures Chunks(items, size)[k] == items[k * size..if (k + 1) * size < |items| then (k + 1) * size else |items|]
    decreases |items|
  {
    if k > 0 {
      var rest := items[size..];
      ChunksTail(items, size, k);
      ChunksAt(rest, size, k - 1);
      var lo := (k - 1) * size;
      assert k * size == lo + size && (k + 1) * size == lo + size + size;
      var hi := if lo + size < |rest| then lo + size else |rest|;
      DropShift(items, size, lo, hi);
    }
  }

  /** Past the first chunk, the chunks are those of the rest. */
  lemma ChunksTail<T>(items: seq<T>, size: nat, k: nat)
    requires size > 0 && 0 < k < |Chunks(items, size)|
    ensures |items| > size && Chunks(items, size)[k] == Chunks(items[size..], size)[k - 1]
  {
  }

  /** A slice of `items[size..]`, seen from `items`. */
  lemma DropShift<T>(items: seq<T>, size: nat, lo: nat, hi: nat)
    requires size <= |items| && lo <= hi <= |items| - size
    ensures items[size..][lo..hi] == items[lo + size..hi + size]
  {
  }


  /** With a positive size, `chunk_list` yields the chunks above and loses no item. */
  lemma ChunkListPartition<T>(items: seq<T>, chunkSize: int)
    requires chunkSize > 0
    ensures ChunkList(items, chunkSize).Ok?
    ensures Flatten(ChunkList(items, chunkSize).value) == items
    ensures |ChunkList(items, chunkSize).value| == (|items| + chunkSize - 1) / chunkSize
  {
    ChunksFlatten(items, chunkSize);
    ChunksCount(items, chunkSize);
  }
}
