/**
 * The mini-batch arithmetic of RNN/lstm.py: `n // batch_size + 1` batches,
 * batch `b` being the Python slice `[b*batch_size : b*batch_size + batch_size]`,
 * which Python clips to the length of the list.
 */
module Batching {

  function Min(a: nat, b: nat): nat {
    if a <= b then a else b
  }

  /** Python's `s[start:end]` for non-negative bounds: both bounds clipped to `|s|`, empty when `start >= end`. */
  function Slice<T>(s: seq<T>, start: nat, end: nat): (r: seq<T>)
    ensures |r| == if Min(end, |s|) > start then Min(end, |s|) - start else 0
    ensures forall k :: 0 <= k < |r| ==> r[k] == s[start + k]
  {
    var lo, hi := Min(start, |s|), Min(end, |s|);
    if lo < hi then s[lo..hi] else []
  }

  /** `n // batch_size + 1`: one more than the number of full batches. */
  function BatchCount(n: nat, batchSize: nat): (c: nat)
    requires batchSize > 0
    ensures c > 0
    ensures (c - 1) * batchSize <= n < c * batchSize
  {
    n / batchSize + 1
  }

  /** Where batch `b` starts once clipped to the `n` examples. */
  function BatchStart(n: nat, batchSize: nat, b: nat): nat {
    Min(b * batchSize, n)
  }

  /** Where batch `b` ends once clipped to the `n` examples. */
  function BatchEnd(n: nat, batchSize: nat, b: nat): nat {
    Min(b * batchSize + batchSize, n)
  }

  /** The slice `s[start:end]` the loop body hands on for batch `b`. */
  function Batch<T>(s: seq<T>, batchSize: nat, b: nat): (r: seq<T>)
    ensures |r| == BatchEnd(|s|, batchSize, b) - BatchStart(|s|, batchSize, b)
    ensures |r| <= batchSize
    ensures forall k :: 0 <= k < |r| ==> r[k] == s[BatchStart(|s|, batchSize, b) + k]
  {
    Slice(s, b * batchSize, b * batchSize + batchSize)
  }

  /** All the batches the loop visits, in order. */
  function Batches<T>(s: seq<T>, batchSize: nat): seq<seq<T>>
    requires batchSize > 0
  {
    seq(BatchCount(|s|, batchSize), b requires 0 <= b < BatchCount(|s|, batchSize) => Batch(s, batchSize, b))
  }

  /** Concatenation of a list of lists, in order. */
  function Flatten<T>(ss: seq<seq<T>>): seq<T> {
    if ss == [] then [] else Flatten(ss[..|ss| - 1]) + ss[|ss| - 1]
  }

  /**
   * The loop `for batch in range(n_batches): start = batch * batch_size;
   * end = start + batch_size; step(x[start:end], t[start:end])`, returning
   * the arguments of the successive calls of `step`.
   */
  method FeedBatches<X, Y>(x: seq<X>, t: seq<Y>, batchSize: nat) returns (xs: seq<seq<X>>, ts: seq<seq<Y>>)
    requires batchSize > 0 && |x| == |t|
    ensures |xs| == |ts| == BatchCount(|x|, batchSize)
    ensures xs == Batches(x, batchSize) && ts == Batches(t, batchSize)
    ensures Flatten(xs) == x && Flatten(ts) == t
    ensures forall b :: 0 <= b < |xs| ==> |xs[b]| == |ts[b]| <= batchSize
  {
    var nBatches := |x| / batchSize + 1;
    xs, ts := [], [];
    for batch := 0 to nBatches
      invariant |xs| == |ts| == batch
      invariant forall b :: 0 <= b < batch ==> xs[b] == Batch(x, batchSize, b) && ts[b] == Batch(t, batchSize, b)
    {
      var start := batch * batchSize;
      var end := start + batchSize;
      xs := xs + [Slice(x, start, end)];
      ts := ts + [Slice(t, start, end)];
    }
    BatchesCover(x, batchSize);
    assert xs == Batches(x, batchSize);
    BatchesCover(t, batchSize);
    assert ts == Batches(t, batchSize);
  }

  /** Multiplication by a positive batch size keeps the order of batch numbers. */
  lemma {:induction false} MulLess(a: nat, b: nat, batchSize: nat)
    requires a < b && batchSize > 0
    ensures a * batchSize + batchSize <= b * batchSize
    decreases b - a
  {
    assert b * batchSize == (b - 1) * batchSize + batchSize;
    if a + 1 < b {
      MulLess(a, b - 1, batchSize);
    }
  }

  /** The first `k` batches together are the prefix of `s` up to where batch `k` starts. */
  lemma {:induction false} BatchPrefix<T>(s: seq<T>, batchSize: nat, k: nat)
    requires batchSize > 0 && k <= BatchCount(|s|, batchSize)
    ensures Flatten(Batches(s, batchSize)[..k]) == s[..BatchStart(|s|, batchSize, k)]
  {
    var bs := Batches(s, batchSize);
    if k == 0 {
      assert bs[..0] == [];
    } else {
      BatchPrefix(s, batchSize, k - 1);
      assert bs[..k][..k - 1] == bs[..k - 1];
      var lo, hi := BatchStart(|s|, batchSize, k - 1), BatchStart(|s|, batchSize, k);
      assert k * batchSize == (k - 1) * batchSize + batchSize;
      assert hi == BatchEnd(|s|, batchSize, k - 1);
      assert bs[k - 1] == s[lo..hi];
      assert s[..lo] + s[lo..hi] == s[..hi];
    }
  }

  /** The batches cover the list exactly once and in order. */
  lemma BatchesCover<T>(s: seq<T>, batchSize: nat)
    requires batchSize > 0
    ensures Flatten(Batches(s, batchSize)) == s
  {
    var c := BatchCount(|s|, batchSize);
    BatchPrefix(s, batchSize, c);
    assert Batches(s, batchSize)[..c] == Batches(s, batchSize);
  }

  /**
   * Batch `b1` ends no later than batch `b2` starts when `b1 < b2`, so no
   * example is in two batches.
   */
  lemma BatchesDisjoint(n: nat, batchSize: nat, b1: nat, b2: nat)
    requires batchSize > 0 && b1 < b2
    ensures BatchStart(n, batchSize, b1) <= BatchEnd(n, batchSize, b1) <= BatchStart(n, batchSize, b2)
  {
    MulLess(b1, b2, batchSize);
  }

  /**
   * Every batch but the last is full, and the last one is empty exactly when
   * `batch_size` divides `n`.
   */
  lemma BatchSizes<T>(s: seq<T>, batchSize: nat)
    requires batchSize > 0
    ensures forall b :: 0 <= b < BatchCount(|s|, batchSize) - 1 ==> |Batch(s, batchSize, b)| == batchSize
    ensures |Batch(s, batchSize, BatchCount(|s|, batchSize) - 1)| == |s| % batchSize
    ensures Batch(s, batchSize, BatchCount(|s|, batchSize) - 1) == [] <==> |s| % batchSize == 0
  {
    var n, c := |s|, BatchCount(|s|, batchSize);
    forall b | 0 <= b < c - 1 ensures |Batch(s, batchSize, b)| == batchSize {
      MulLess(b, c - 1, batchSize);
    }
    assert n == (n / batchSize) * batchSize + n % batchSize;
  }
}
