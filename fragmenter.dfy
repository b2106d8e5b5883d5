/**
 * `splitBuffer`: a file's bytes cut into a fixed number of contiguous
 * slices of `ceil(len / n)` bytes each, the trailing ones shorter or empty.
 */
module Fragmenter {
  import opened Wrappers
  import opened Bytes

  /** FRAGMENT_COUNT: every file is stored as this many fragments. */
  const FragmentCount: nat := 5

  /** Why `splitBuffer` throws. */
  datatype SplitError = EmptyBuffer | NonPositiveCount

  /** `Math.ceil(len / n)` */
  function FragmentSize(len: nat, n: nat): (fs: nat)
    requires n > 0
    ensures fs * n >= len
    ensures len > 0 ==> fs > 0 && (fs - 1) * n < len
  {
    (len + n - 1) / n
  }

  function Min(a: nat, b: nat): nat
  {
    if a < b then a else b
  }

  /** Where slice `i` starts: `i * fragmentSize`, clamped to the buffer as `slice` does. */
  function SliceStart(len: nat, n: nat, i: nat): nat
    requires n > 0
  {
    Min(i * FragmentSize(len, n), len)
  }

  /** Where slice `i` ends: `Math.min(start + fragmentSize, len)`. */
  function SliceEnd(len: nat, n: nat, i: nat): nat
    requires n > 0
  {
    Min(i * FragmentSize(len, n) + FragmentSize(len, n), len)
  }

  /** Slice `i` of `b` cut into `n`: `buffer.slice(start, end)`. */
  function SliceAt(b: seq<byte>, n: nat, i: nat): seq<byte>
    requires n > 0
  {
    var fs := FragmentSize(|b|, n);
    Slice(b, i * fs, Min(i * fs + fs, |b|))
  }

  /** The first `k` slices, in order. */
  function Split(b: seq<byte>, n: nat, k: nat): (parts: seq<seq<byte>>)
    requires n > 0
    ensures |parts| == k
    ensures forall i :: 0 <= i < k ==> parts[i] == SliceAt(b, n, i)
  {
    if k == 0 then [] else Split(b, n, k - 1) + [SliceAt(b, n, k - 1)]
  }

  /** Slice `i` is exactly the bytes in [SliceStart, SliceEnd), at most `fragmentSize` of them. */
  lemma SliceAtRange(b: seq<byte>, n: nat, i: nat)
    requires n > 0
    ensures SliceStart(|b|, n, i) <= SliceEnd(|b|, n, i) <= |b|
    ensures SliceAt(b, n, i) == b[SliceStart(|b|, n, i)..SliceEnd(|b|, n, i)]
    ensures |SliceAt(b, n, i)| <= FragmentSize(|b|, n)
  {
  }

  /** Consecutive slices meet: each one starts where the previous one ended. */
  lemma SlicesAdjacent(len: nat, n: nat, i: nat)
    requires n > 0
    ensures SliceEnd(len, n, i) == SliceStart(len, n, i + 1)
  {
    var fs := FragmentSize(len, n);
    assert (i + 1) * fs == i * fs + fs;
  }

  /** Appending the bytes `[lo, hi)` to a join of the bytes before `lo`. */
  lemma ExtendPrefix(b: seq<byte>, parts: seq<seq<byte>>, lo: nat, hi: nat)
    requires lo <= hi <= |b|
    requires Concat(parts) == b[..lo]
    ensures Concat(parts + [b[lo..hi]]) == b[..hi]
  {
    ConcatAppend(parts, b[lo..hi]);
    assert b[..lo] + b[lo..hi] == b[..hi];
  }

  /** Joining the first `k` slices gives the buffer up to where slice `k` starts. */
  lemma {:induction false} ConcatSplitPrefix(b: seq<byte>, n: nat, k: nat)
    requires n > 0
    ensures Concat(Split(b, n, k)) == b[..SliceStart(|b|, n, k)]
  {
    if k == 0 {
      assert b[..SliceStart(|b|, n, 0)] == [];
    } else {
      ConcatSplitPrefix(b, n, k - 1);
      SliceAtRange(b, n, k - 1);
      SlicesAdjacent(|b|, n, k - 1);
      ExtendPrefix(b, Split(b, n, k - 1), SliceStart(|b|, n, k - 1), SliceEnd(|b|, n, k - 1));
    }
  }

  /** The `n` slices reach the end of the buffer. */
  lemma SlicesCover(len: nat, n: nat)
    requires n > 0
    ensures SliceStart(len, n, n) == len
  {
    var fs := FragmentSize(len, n);
    assert n * fs >= len;
  }

  /** Reassembly: the `n` slices joined in order are the original buffer. */
  lemma ConcatSplit(b: seq<byte>, n: nat)
    requires n > 0
    ensures Concat(Split(b, n, n)) == b
  {
    ConcatSplitPrefix(b, n, n);
    SlicesCover(|b|, n);
    assert b[..|b|] == b;
  }

  /**
   * `splitBuffer(buffer, numFragments)`: fails on an empty buffer or a
   * non-positive count, otherwise pushes the slices one by one.
   */
  method SplitBuffer(buffer: seq<byte>, numFragments: int) returns (r: Result<seq<seq<byte>>, SplitError>)
    ensures |buffer| == 0 ==> r == Err(EmptyBuffer)
    ensures |buffer| > 0 && numFragments <= 0 ==> r == Err(NonPositiveCount)
    ensures r.Ok? <==> |buffer| > 0 && numFragments > 0
    ensures r.Ok? ==> r.value == Split(buffer, numFragments, numFragments)
    ensures r.Ok? ==> |r.value| == numFragments && Concat(r.value) == buffer
    ensures r.Ok? ==> forall i :: 0 <= i < |r.value| ==> |r.value[i]| <= FragmentSize(|buffer|, numFragments)
  {
    if |buffer| == 0 {
      return Err(EmptyBuffer);
    }
    if numFragments <= 0 {
      return Err(NonPositiveCount);
    }
    var fragmentSize := (|buffer| + numFragments - 1) / numFragments;
    assert fragmentSize == FragmentSize(|buffer|, numFragments);
    var fragments: seq<seq<byte>> := [];
    for i := 0 to numFragments
      invariant fragments == Split(buffer, numFragments, i)
    {
      var start := i * fragmentSize;
      var end := if start + fragmentSize < |buffer| then start + fragmentSize else |buffer|;
      assert Slice(buffer, start, end) == SliceAt(buffer, numFragments, i);
      fragments := fragments + [Slice(buffer, start, end)];
    }
    ConcatSplit(buffer, numFragments);
    forall i | 0 <= i < numFragments ensures |fragments[i]| <= fragmentSize {
      SliceAtRange(buffer, numFragments, i);
    }
    return Ok(fragments);
  }

  /** A 13-byte file gives fragments of 3, 3, 3, 3 and 1 bytes. */
  lemma ThirteenBytes(b: seq<byte>)
    requires |b| == 13
    ensures forall i :: 0 <= i < 5 ==> |SliceAt(b, 5, i)| == [3, 3, 3, 3, 1][i]
  {
    assert FragmentSize(13, 5) == 3;
  }

  /** A 6-byte file gives fragments of 2, 2, 2, 0 and 0 bytes. */
  lemma SixBytes(b: seq<byte>)
    requires |b| == 6
    ensures forall i :: 0 <= i < 5 ==> |SliceAt(b, 5, i)| == [2, 2, 2, 0, 0][i]
  {
    assert FragmentSize(6, 5) == 2;
  }
}
