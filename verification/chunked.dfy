/**
  The generic `chunked(into:)` extension on arrays: split a sequence into
  consecutive slices of `size` elements, the last one possibly shorter.
  The source walks `stride(from: 0, to: count, by: size)` and takes the slice
  `[start ..< min(start + size, count)]` at every stride point; `Chunked`
  takes the first such slice and recurs on what follows it, and the lemmas
  below tie that back to the stride formula.
 */
module Chunking {

  function Min(a: int, b: int): int { if a <= b then a else b }

  /** Concatenation of a sequence of chunks, in order. */
  function Flatten<T>(chunks: seq<seq<T>>): seq<T>
  {
    if chunks == [] then [] else chunks[0] + Flatten(chunks[1..])
  }

  /**
    `chunked(into: size)`. A zero size makes the source's `stride` trap and a
    negative one yields no chunks at all; the model takes positive sizes only.
   */
  function Chunked<T>(a: seq<T>, size: nat): (r: seq<seq<T>>)
    requires size > 0
    ensures forall i :: 0 <= i < |r| ==> 0 < |r[i]| <= size
    ensures forall i :: 0 <= i < |r| - 1 ==> |r[i]| == size
    ensures a == [] <==> r == []
    decreases |a|
  {
    if a == [] then []
    else
      var k := Min(size, |a|);
      [a[..k]] + Chunked(a[k..], size)
  }

  /** Putting the chunks back together gives the original sequence. */
  lemma {:induction false} ChunkedFlatten<T>(a: seq<T>, size: nat)
    requires size > 0
    ensures Flatten(Chunked(a, size)) == a
    decreases |a|
  {
    if a != [] {
      var k := Min(size, |a|);
      ChunkedFlatten(a[k..], size);
      assert Chunked(a, size)[1..] == Chunked(a[k..], size);
      assert a == a[..k] + a[k..];
    }
  }

  /** The stride point `i * size`, as repeated addition. */
  function Stride(i: nat, size: nat): nat
  {
    if i == 0 then 0 else Stride(i - 1, size) + size
  }

  lemma {:induction false} StrideIsProduct(i: nat, size: nat)
    ensures Stride(i, size) == i * size
  {
    if i > 0 {
      StrideIsProduct(i - 1, size);
    }
  }

  /**
    One chunk per stride point: the last chunk starts below |a| and the
    chunks cover all of it, so there are ceil(|a| / size) chunks.
   */
  lemma {:induction false} ChunkedCount<T>(a: seq<T>, size: nat)
    requires size > 0
    ensures var n := |Chunked(a, size)|;
      (n == 0 || Stride(n - 1, size) < |a|) && |a| <= Stride(n, size)
    decreases |a|
  {
    var k := Min(size, |a|);
    if a != [] {
      ChunkedCount(a[k..], size);
      assert Chunked(a, size) == [a[..k]] + Chunked(a[k..], size);
    }
  }

  lemma SliceOfSuffix<T>(a: seq<T>, k: nat, lo: nat, hi: nat)
    requires k <= |a| && lo <= hi <= |a| - k
    ensures a[k..][lo..hi] == a[k + lo .. k + hi]
  {
  }

  /** Chunk `i` is the stride slice `a[i * size .. min(i * size + size, |a|)]`. */
  lemma {:induction false} ChunkedAt<T>(a: seq<T>, size: nat, i: nat)
    requires size > 0 && i < |Chunked(a, size)|
    ensures Stride(i, size) < |a|
    ensures Chunked(a, size)[i] == a[Stride(i, size) .. Min(Stride(i, size) + size, |a|)]
    decreases i
  {
    var k := Min(size, |a|);
    var rest := a[k..];
    assert Chunked(a, size) == [a[..k]] + Chunked(rest, size);
    if i == 0 {
      assert Chunked(a, size)[0] == a[..k] == a[0..k];
    } else {
      ChunkedAt(rest, size, i - 1);
      var lo := Stride(i - 1, size);
      var hi := Min(lo + size, |rest|);
      assert Chunked(a, size)[i] == rest[lo..hi];
      assert k == size;
      assert Stride(i, size) == k + lo;
      assert Min(Stride(i, size) + size, |a|) == k + hi;
      SliceOfSuffix(a, k, lo, hi);
      assert Chunked(a, size)[i] == a[k + lo .. k + hi];
    }
  }

  /**
    On a sequence of even length, chunks of two are exact pairs: there are
    |a| / 2 of them and pair `i` is `[a[2i], a[2i+1]]`.
   */
  lemma ChunkedPairs<T>(a: seq<T>)
    requires |a| % 2 == 0
    ensures |Chunked(a, 2)| == |a| / 2
    ensures forall i :: 0 <= i < |a| / 2 ==> Chunked(a, 2)[i] == [a[2 * i], a[2 * i + 1]]
  {
    ChunkedCount(a, 2);
    var n := |Chunked(a, 2)|;
    StrideIsProduct(n, 2);
    if n > 0 {
      StrideIsProduct(n - 1, 2);
    }
    forall i | 0 <= i < |a| / 2
      ensures Chunked(a, 2)[i] == [a[2 * i], a[2 * i + 1]]
    {
      ChunkedAt(a, 2, i);
      StrideIsProduct(i, 2);
      assert Chunked(a, 2)[i] == a[2 * i .. 2 * i + 2];
    }
  }
}
