/**
 * Batching (steem/utils.py, `chunkify`): cut a sequence into consecutive
 * chunks of `chunksize` items, the last one possibly shorter.
 */
module Chunking {

  /** The items of the chunks, in order. */
  function Flatten<T>(chunks: seq<seq<T>>): seq<T> {
    if chunks == [] then [] else chunks[0] + Flatten(chunks[1..])
  }

  lemma {:induction false} FlattenSnoc<T>(chunks: seq<seq<T>>, c: seq<T>)
    ensures Flatten(chunks + [c]) == Flatten(chunks) + c
  {
    if chunks != [] {
      assert (chunks + [c])[1..] == chunks[1..] + [c];
      FlattenSnoc(chunks[1..], c);
    } else {
      assert [c][1..] == [];
    }
  }

  /** The length of `q * n + r` items cut into chunks of `n`, rounded up, is `q` or `q + 1`. */
  lemma CeilingOfChunks(q: nat, r: nat, n: nat)
    requires n > 0 && r < n
    ensures (q * n + r + n - 1) / n == if r == 0 then q else q + 1
  {
    var t := q * n + r + n - 1;
    if r == 0 {
      assert t == q * n + (n - 1);
      DivIsQuotient(t, q, n - 1, n);
    } else {
      assert t == (q + 1) * n + (r - 1);
      DivIsQuotient(t, q + 1, r - 1, n);
    }
  }

  lemma DivIsQuotient(t: int, a: int, b: int, n: int)
    requires n > 0 && 0 <= b < n && t == a * n + b
    ensures t / n == a
  {
    var d, m := t / n, t % n;
    assert (d - a) * n == b - m by {
      assert d * n + m == a * n + b;
      assert (d - a) * n == d * n - a * n;
    }
    if d - a >= 1 {
      MultipleAtLeast(d - a, n);
    } else if a - d >= 1 {
      MultipleAtLeast(a - d, n);
    }
  }

  lemma MultipleAtLeast(x: int, n: int)
    requires x >= 1 && n > 0
    ensures x * n >= n
  {
  }

  /**
   * `chunkify` (steem/utils.py:49-69), collecting every chunk it yields.
   * The chunk size defaults to 10000, as in the source.
   * A `chunksize` of zero or less never equals the running count, so the
   * whole input comes out as a single chunk.
   */
  method Chunkify<T>(items: seq<T>, chunksize: int := 10000) returns (chunks: seq<seq<T>>)
    ensures Flatten(chunks) == items
    ensures forall k :: 0 <= k < |chunks| ==> |chunks[k]| >= 1
    ensures chunks == [] <==> items == []
    ensures chunksize > 0 ==> forall k :: 0 <= k < |chunks| ==> |chunks[k]| <= chunksize
    ensures chunksize > 0 ==> forall k :: 0 <= k < |chunks| - 1 ==> |chunks[k]| == chunksize
    ensures chunksize > 0 ==> |chunks| == (|items| + chunksize - 1) / chunksize
    ensures chunksize <= 0 ==> chunks == if items == [] then [] else [items]
  {
    var i := 0;
    var chunk: seq<T> := [];
    chunks := [];
    for k := 0 to |items|
      invariant Flatten(chunks) + chunk == items[..k]
      invariant i == |chunk|
      invariant chunksize > 0 ==> i < chunksize
      invariant chunksize > 0 ==> forall j :: 0 <= j < |chunks| ==> |chunks[j]| == chunksize
      invariant chunksize > 0 ==> |items[..k]| == |chunks| * chunksize + i
      invariant chunksize <= 0 ==> chunks == []
    {
      assert items[..k + 1] == items[..k] + [items[k]];
      chunk := chunk + [items[k]];
      i := i + 1;
      if i == chunksize {
        FlattenSnoc(chunks, chunk);
        chunks := chunks + [chunk];
        i := 0;
        chunk := [];
      }
    }
    assert items[..|items|] == items;
    var full := |chunks|;
    if |chunk| > 0 {
      FlattenSnoc(chunks, chunk);
      chunks := chunks + [chunk];
    }
    if chunksize > 0 {
      CeilingOfChunks(full, i, chunksize);
    }
  }
}
