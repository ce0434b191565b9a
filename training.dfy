/**
 * The epoch loop of RNN/lstm.py: shuffle the training examples, feed them
 * batch by batch to the training step, feed the validation examples batch by
 * batch to the validation step, append both metric results to the history,
 * and stop when the early-stopping object says so or the epoch budget is spent.
 *
 * What cannot be seen from this file is passed in:
 *  - `perm(e)`: the permutation `shuffle` draws in epoch `e`;
 *  - `trainMetric(e)`, `valMetric(e)`: what `train_loss.result()` and
 *    `val_loss.result()` return after epoch `e` (the accumulators are never
 *    reset, so these are running means over all epochs so far);
 *  - `stop(vs)`: the answer of the early-stopping object when it has been
 *    called with the values `vs`, in order, one per epoch. It is stateful, but
 *    it is called exactly once per epoch, so its answer is a function of the
 *    values it has seen.
 */
module Training {
  import Batching

  /** The `hist` dictionary: its `'loss'` and `'val_loss'` lists. */
  datatype History<L> = History(loss: seq<L>, valLoss: seq<L>)

  /** The arguments of every `train_step` and `val_step` call of one epoch, in order. */
  datatype EpochFeed<X, Y> = EpochFeed(trainX: seq<seq<X>>, trainT: seq<seq<Y>>, valX: seq<seq<X>>, valT: seq<seq<Y>>)

  /** The indices `0 .. n-1` in order. */
  function Range(n: nat): (r: seq<nat>)
    ensures |r| == n && forall i :: 0 <= i < n ==> r[i] == i
  {
    if n == 0 then [] else Range(n - 1) + [n - 1]
  }

  /** `p` lists each of `0 .. n-1` exactly once. */
  predicate IsPermutation(p: seq<nat>, n: nat) {
    |p| == n && multiset(p) == multiset(Range(n))
  }

  /** A permutation of `0 .. n-1` takes only values below `n`, and takes each of them. */
  lemma PermutationIndices(p: seq<nat>, n: nat)
    requires IsPermutation(p, n)
    ensures forall k :: 0 <= k < n ==> p[k] < n
    ensures forall j :: 0 <= j < n ==> j in p
  {
    var r := Range(n);
    forall k | 0 <= k < n ensures p[k] < n {
      assert p[k] in multiset(r);
      var i :| 0 <= i < n && r[i] == p[k];
    }
    forall j | 0 <= j < n ensures j in p {
      assert r[j] == j;
      assert j in multiset(r);
    }
  }

  /** `(a, b)` is one of the examples of `x` and `t`, input beside its own target. */
  ghost predicate IsExample<X, Y>(x: seq<X>, t: seq<Y>, a: X, b: Y) {
    exists j :: 0 <= j < |x| && j < |t| && x[j] == a && t[j] == b
  }

  /** Reordering by a permutation keeps every (input, target) pair and loses none. */
  lemma PermutedPairs<X, Y>(x: seq<X>, t: seq<Y>, p: seq<nat>, xs: seq<X>, ts: seq<Y>)
    requires |x| == |t| == |xs| == |ts| && IsPermutation(p, |x|)
    requires forall k :: 0 <= k < |x| ==> p[k] < |x| && xs[k] == x[p[k]] && ts[k] == t[p[k]]
    ensures forall k :: 0 <= k < |x| ==> IsExample(x, t, xs[k], ts[k])
    ensures forall j :: 0 <= j < |x| ==> IsExample(xs, ts, x[j], t[j])
  {
    PermutationIndices(p, |x|);
    forall k | 0 <= k < |x| ensures IsExample(x, t, xs[k], ts[k]) {
      var j := p[k];
      assert 0 <= j < |x| && xs[k] == x[j] && ts[k] == t[j];
    }
    forall j | 0 <= j < |x| ensures IsExample(xs, ts, x[j], t[j]) {
      assert j in p;
      var k :| 0 <= k < |p| && p[k] == j;
      assert 0 <= k < |x| && xs[k] == x[j] && ts[k] == t[j];
    }
  }

  /** The (input, target) pairs of `x` and `t`, in order. */
  function Zip<X, Y>(x: seq<X>, t: seq<Y>): (z: seq<(X, Y)>)
    requires |x| == |t|
    ensures |z| == |x| && forall i :: 0 <= i < |x| ==> z[i] == (x[i], t[i])
  {
    seq(|x|, i requires 0 <= i < |x| => (x[i], t[i]))
  }

  /** The elements of `s` at the indices `p`, in the order of `p`. */
  function Pick<T>(s: seq<T>, p: seq<nat>): (r: seq<T>)
    requires forall k :: 0 <= k < |p| ==> p[k] < |s|
    ensures |r| == |p| && forall k :: 0 <= k < |p| ==> r[k] == s[p[k]]
  {
    if p == [] then [] else Pick(s, p[..|p| - 1]) + [s[p[|p| - 1]]]
  }

  lemma {:induction false} PickAppend<T>(s: seq<T>, a: seq<nat>, b: seq<nat>)
    requires forall k :: 0 <= k < |a| ==> a[k] < |s|
    requires forall k :: 0 <= k < |b| ==> b[k] < |s|
    ensures forall k :: 0 <= k < |a + b| ==> (a + b)[k] < |s|
    ensures Pick(s, a + b) == Pick(s, a) + Pick(s, b)
  {
    assert forall k :: 0 <= k < |a + b| ==> (a + b)[k] < |s| by {
      forall k | 0 <= k < |a + b| ensures (a + b)[k] < |s| {
        if k < |a| { assert (a + b)[k] == a[k]; } else { assert (a + b)[k] == b[k - |a|]; }
      }
    }
  }

  /** Taking the same index out of two lists with equal multisets leaves equal multisets. */
  lemma RemoveOne(p: seq<nat>, a: seq<nat>, b: seq<nat>, i: nat)
    requires multiset(p + [i]) == multiset(a + [i] + b)
    ensures multiset(p) == multiset(a + b)
  {
    var m := multiset(p + [i]);
    assert m == multiset(p) + multiset{i};
    assert m == multiset(a) + multiset{i} + multiset(b);
    assert multiset(p) == m - multiset{i} == multiset(a) + multiset(b);
  }

  /** Which elements `Pick` yields, counted with multiplicity, depends only on the multiset of indices. */
  lemma {:induction false} PickMultiset<T>(s: seq<T>, p: seq<nat>, q: seq<nat>)
    requires forall k :: 0 <= k < |p| ==> p[k] < |s|
    requires forall k :: 0 <= k < |q| ==> q[k] < |s|
    requires multiset(p) == multiset(q)
    ensures multiset(Pick(s, p)) == multiset(Pick(s, q))
    decreases |p|
  {
    if p == [] {
      assert |q| == |multiset(q)| == 0;
    } else {
      var p', i := p[..|p| - 1], p[|p| - 1];
      assert p == p' + [i];
      assert i in multiset(q);
      var j :| 0 <= j < |q| && q[j] == i;
      var a, b := q[..j], q[j + 1..];
      assert q == a + [i] + b;
      RemoveOne(p', a, b, i);
      PickAppend(s, a, b);
      PickMultiset(s, p', a + b);
      PickSplit(s, a, b, i);
    }
  }

  /** Picking `a`, then `i`, then `b` yields the elements of picking `a + b` together with `s[i]`. */
  lemma PickSplit<T>(s: seq<T>, a: seq<nat>, b: seq<nat>, i: nat)
    requires forall k :: 0 <= k < |a| ==> a[k] < |s|
    requires forall k :: 0 <= k < |b| ==> b[k] < |s|
    requires i < |s|
    ensures forall k :: 0 <= k < |a + [i] + b| ==> (a + [i] + b)[k] < |s|
    ensures forall k :: 0 <= k < |a + b| ==> (a + b)[k] < |s|
    ensures multiset(Pick(s, a + [i] + b)) == multiset(Pick(s, a + b)) + multiset{s[i]}
  {
    PickAppend(s, a, [i]);
    PickAppend(s, a + [i], b);
    PickAppend(s, a, b);
    assert Pick(s, [i]) == [s[i]];
  }

  /** Reading a list through a permutation of its indices keeps its multiset. */
  lemma PermutedMultiset<T>(s: seq<T>, p: seq<nat>)
    requires IsPermutation(p, |s|)
    ensures forall k :: 0 <= k < |p| ==> p[k] < |s|
    ensures multiset(Pick(s, p)) == multiset(s)
  {
    PermutationIndices(p, |s|);
    var r := Range(|s|);
    PickMultiset(s, p, r);
    assert Pick(s, r) == s;
  }

  /**
   * `shuffle(x_train, t_train)`: one permutation applied to inputs and
   * targets alike, so every example keeps its target, and each (input,
   * target) pair occurs as often as before.
   */
  function Shuffle<X, Y>(x: seq<X>, t: seq<Y>, p: seq<nat>): (r: (seq<X>, seq<Y>))
    requires |x| == |t| && IsPermutation(p, |x|)
    ensures |r.0| == |r.1| == |x|
    ensures multiset(Zip(r.0, r.1)) == multiset(Zip(x, t))
    ensures forall k :: 0 <= k < |x| ==> IsExample(x, t, r.0[k], r.1[k])
    ensures forall j :: 0 <= j < |x| ==> IsExample(r.0, r.1, x[j], t[j])
  {
    PermutationIndices(p, |x|);
    var r := (seq(|x|, k requires 0 <= k < |x| => x[p[k]]), seq(|x|, k requires 0 <= k < |x| => t[p[k]]));
    PermutedPairs(x, t, p, r.0, r.1);
    PermutedMultiset(Zip(x, t), p);
    assert Zip(r.0, r.1) == Pick(Zip(x, t), p);
    r
  }

  /** What one epoch hands to the two step functions when the shuffle draws `p`. */
  function Feed<X, Y>(xTrain: seq<X>, tTrain: seq<Y>, xVal: seq<X>, tVal: seq<Y>, batchSize: nat, p: seq<nat>): EpochFeed<X, Y>
    requires batchSize > 0 && |xTrain| == |tTrain| && IsPermutation(p, |xTrain|)
  {
    var sh := Shuffle(xTrain, tTrain, p);
    EpochFeed(Batching.Batches(sh.0, batchSize), Batching.Batches(sh.1, batchSize),
              Batching.Batches(xVal, batchSize), Batching.Batches(tVal, batchSize))
  }

  /** The values a metric reports after each of the first `n` epochs. */
  function Metrics<L>(m: nat -> L, n: nat): (vs: seq<L>)
    ensures |vs| == n && forall e :: 0 <= e < n ==> vs[e] == m(e)
  {
    seq(n, e requires 0 <= e < n => m(e))
  }

  /**
   * How many epochs the loop completes when `e` epochs are done and none of
   * them stopped it: the first `d > e` whose stop decision is true, else the budget.
   */
  function EpochsFrom<L>(epochs: nat, e: nat, valMetric: nat -> L, stop: seq<L> -> bool): (n: nat)
    requires e <= epochs
    ensures e <= n <= epochs
    ensures forall d :: e < d < n ==> !stop(Metrics(valMetric, d))
    ensures n < epochs ==> e < n && stop(Metrics(valMetric, n))
    decreases epochs - e
  {
    if e == epochs then epochs
    else if stop(Metrics(valMetric, e + 1)) then e + 1
    else EpochsFrom(epochs, e + 1, valMetric, stop)
  }

  /**
   * How many epochs the loop completes: it stops after the first epoch whose
   * stop decision is true, and after `epochs` epochs at the latest.
   */
  function EpochsRun<L>(epochs: nat, valMetric: nat -> L, stop: seq<L> -> bool): (n: nat)
    ensures n <= epochs
    ensures forall d :: 0 < d < n ==> !stop(Metrics(valMetric, d))
    ensures n < epochs ==> n > 0 && stop(Metrics(valMetric, n))
  {
    EpochsFrom(epochs, 0, valMetric, stop)
  }

  lemma MetricsAppend<L>(m: nat -> L, n: nat)
    ensures Metrics(m, n + 1) == Metrics(m, n) + [m(n)]
  {
  }

  lemma MetricsPrefix<L>(m: nat -> L, n: nat, d: nat)
    requires d <= n
    ensures Metrics(m, n)[..d] == Metrics(m, d)
  {
  }

  /** The body of one epoch: shuffle the training set, then run the training and the validation batch loops. */
  method RunEpoch<X, Y>(xTrain: seq<X>, tTrain: seq<Y>, xVal: seq<X>, tVal: seq<Y>, batchSize: nat, p: seq<nat>)
    returns (fd: EpochFeed<X, Y>)
    requires batchSize > 0 && |xTrain| == |tTrain| && |xVal| == |tVal| && IsPermutation(p, |xTrain|)
    ensures fd == Feed(xTrain, tTrain, xVal, tVal, batchSize, p)
  {
    var shuffled := Shuffle(xTrain, tTrain, p);
    var trainX, trainT := Batching.FeedBatches(shuffled.0, shuffled.1, batchSize);
    var valX, valT := Batching.FeedBatches(xVal, tVal, batchSize);
    fd := EpochFeed(trainX, trainT, valX, valT);
  }

  /**
   * The epoch loop: each epoch shuffles and feeds the batches, appends one
   * value to each history list, and ends the loop when the early-stopping
   * object says so; at most `epochs` epochs run.
   */
  method Train<X, Y, L>(xTrain: seq<X>, tTrain: seq<Y>, xVal: seq<X>, tVal: seq<Y>,
                        batchSize: nat, epochs: nat, perm: nat -> seq<nat>,
                        trainMetric: nat -> L, valMetric: nat -> L, stop: seq<L> -> bool)
    returns (hist: History<L>, feeds: seq<EpochFeed<X, Y>>)
    requires batchSize > 0 && |xTrain| == |tTrain| && |xVal| == |tVal|
    requires forall e: nat :: IsPermutation(perm(e), |xTrain|)
    ensures |feeds| == EpochsRun(epochs, valMetric, stop) <= epochs
    ensures |hist.loss| == |hist.valLoss| == |feeds|
    ensures hist.loss == Metrics(trainMetric, |feeds|) && hist.valLoss == Metrics(valMetric, |feeds|)
    ensures forall d :: 0 < d < |feeds| ==> !stop(hist.valLoss[..d])
    ensures |feeds| < epochs ==> stop(hist.valLoss)
    ensures forall e :: 0 <= e < |feeds| ==> feeds[e] == Feed(xTrain, tTrain, xVal, tVal, batchSize, perm(e))
  {
    var loss, valLoss := [], [];
    feeds := [];
    for epoch := 0 to epochs
      invariant |feeds| == epoch
      invariant loss == Metrics(trainMetric, epoch) && valLoss == Metrics(valMetric, epoch)
      invariant forall e :: 0 <= e < epoch ==> feeds[e] == Feed(xTrain, tTrain, xVal, tVal, batchSize, perm(e))
      invariant EpochsFrom(epochs, epoch, valMetric, stop) == EpochsRun(epochs, valMetric, stop)
    {
      var fd := RunEpoch(xTrain, tTrain, xVal, tVal, batchSize, perm(epoch));
      ghost var before := feeds;
      feeds := feeds + [fd];
      assert feeds[..epoch] == before && feeds[epoch] == fd;
      MetricsAppend(trainMetric, epoch);
      MetricsAppend(valMetric, epoch);
      loss := loss + [trainMetric(epoch)];
      valLoss := valLoss + [valMetric(epoch)];
      if stop(valLoss) {
        assert EpochsFrom(epochs, epoch, valMetric, stop) == epoch + 1;
        break;
      }
      assert EpochsFrom(epochs, epoch, valMetric, stop) == EpochsFrom(epochs, epoch + 1, valMetric, stop);
    }
    hist := History(loss, valLoss);
    forall d | 0 < d < |feeds| ensures valLoss[..d] == Metrics(valMetric, d) {
      MetricsPrefix(valMetric, |feeds|, d);
    }
  }

  /**
   * Each epoch trains on every training example exactly once, in shuffled
   * order, and validates on every validation example exactly once, in
   * temporal order.
   */
  lemma FeedCovers<X, Y>(xTrain: seq<X>, tTrain: seq<Y>, xVal: seq<X>, tVal: seq<Y>, batchSize: nat, p: seq<nat>)
    requires batchSize > 0 && |xTrain| == |tTrain| && IsPermutation(p, |xTrain|)
    ensures var fd := Feed(xTrain, tTrain, xVal, tVal, batchSize, p);
      && Batching.Flatten(fd.trainX) == Shuffle(xTrain, tTrain, p).0
      && Batching.Flatten(fd.trainT) == Shuffle(xTrain, tTrain, p).1
      && multiset(Zip(Batching.Flatten(fd.trainX), Batching.Flatten(fd.trainT))) == multiset(Zip(xTrain, tTrain))
      && Batching.Flatten(fd.valX) == xVal
      && Batching.Flatten(fd.valT) == tVal
  {
    var sh := Shuffle(xTrain, tTrain, p);
    Batching.BatchesCover(sh.0, batchSize);
    Batching.BatchesCover(sh.1, batchSize);
    Batching.BatchesCover(xVal, batchSize);
    Batching.BatchesCover(tVal, batchSize);
  }
}
