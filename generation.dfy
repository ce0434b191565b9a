/**
 * The forecast loop at the end of RNN/lstm.py: starting from the first
 * window, the network's prediction is appended to the input buffer, the
 * oldest sample is dropped, and the prediction is recorded in `gen`, whose
 * first `maxlen` entries are `None` placeholders.
 *
 * The trained network is the function `predict`, from a window to a sample.
 */
module Generation {
  import Windowing

  datatype Option<T> = None | Some(value: T)

  /**
   * `np.append(z, pred)[1:]`: append the prediction and drop the first
   * sample. For a non-empty buffer this is a left shift that keeps its length.
   */
  function Shift<T>(z: seq<T>, pred: T): (r: seq<T>)
    ensures |z| > 0 ==> |r| == |z| && r == z[1..] + [pred]
    ensures |z| > 0 ==> r[|r| - 1] == pred && forall k :: 0 <= k < |r| - 1 ==> r[k] == z[k + 1]
    ensures |z| == 0 ==> r == []
  {
    (z + [pred])[1..]
  }

  /** The buffer after `k` steps of the loop. */
  function Rollout<T>(seed: seq<T>, k: nat, predict: seq<T> -> T): (z: seq<T>)
    ensures |z| == |seed|
  {
    if k == 0 then seed
    else
      var prev := Rollout(seed, k - 1, predict);
      Shift(prev, predict(prev))
  }

  /** The predictions of the first `k` steps, in order. */
  function Predictions<T>(seed: seq<T>, k: nat, predict: seq<T> -> T): (p: seq<T>)
    ensures |p| == k
  {
    if k == 0 then []
    else Predictions(seed, k - 1, predict) + [predict(Rollout(seed, k - 1, predict))]
  }

  /** `x[:1]`, the buffer the loop starts from: the first window, or nothing when there is none. */
  function Seed<T>(f: seq<T>, maxlen: nat): (z: seq<T>)
    ensures |f| > maxlen ==> |z| == maxlen && z == f[..maxlen]
    ensures |f| <= maxlen ==> z == []
  {
    var x := Windowing.Windows(f, maxlen);
    if |x| > 0 then x[0] else []
  }

  /** `gen` after the loop has recorded the predictions `p`: placeholders, then the predictions. */
  function Recorded<T>(maxlen: nat, p: seq<T>): (gen: seq<Option<T>>)
    ensures |gen| == maxlen + |p|
    ensures forall k :: 0 <= k < maxlen ==> gen[k] == None
    ensures forall k :: 0 <= k < |p| ==> gen[maxlen + k] == Some(p[k])
  {
    seq(maxlen, _ => None) + seq(|p|, k requires 0 <= k < |p| => Some(p[k]))
  }

  lemma RecordedAppend<T>(maxlen: nat, p: seq<T>, x: T)
    ensures Recorded(maxlen, p + [x]) == Recorded(maxlen, p) + [Some(x)]
  {
  }

  /**
   * The forecast loop: the buffer starts as window 0 (or empty when the
   * signal yields no window, and then the loop does not run either); each of
   * the `len(f) - maxlen` steps predicts from the buffer, records the
   * prediction in `gen` and shifts it into the buffer.
   */
  method Generate<T>(f: seq<T>, maxlen: nat, predict: seq<T> -> T) returns (gen: seq<Option<T>>, z: seq<T>)
    ensures |f| >= maxlen ==> |gen| == |f|
    ensures gen == Recorded(maxlen, Predictions(Seed(f, maxlen), Windowing.ExampleCount(|f|, maxlen), predict))
    ensures forall k :: 0 <= k < maxlen ==> gen[k] == None
    ensures |f| > maxlen ==> |z| == maxlen && z == Rollout(f[..maxlen], Windowing.ExampleCount(|f|, maxlen), predict)
  {
    gen := seq(maxlen, _ => None);
    z := Seed(f, maxlen);
    ghost var seed, steps := z, Windowing.ExampleCount(|f|, maxlen);
    assert gen == Recorded(maxlen, Predictions(seed, 0, predict));
    var i := 0;
    while i < |f| - maxlen
      invariant 0 <= i <= steps
      invariant gen == Recorded(maxlen, Predictions(seed, i, predict))
      invariant z == Rollout(seed, i, predict)
    {
      var pred := predict(z);
      assert Predictions(seed, i + 1, predict) == Predictions(seed, i, predict) + [pred];
      RecordedAppend(maxlen, Predictions(seed, i, predict), pred);
      z := Shift(z, pred);
      gen := gen + [Some(pred)];
      i := i + 1;
    }
    assert i == steps;
  }

  /** Later steps only extend the list of predictions. */
  lemma {:induction false} PredictionsPrefix<T>(seed: seq<T>, j: nat, k: nat, predict: seq<T> -> T)
    requires j <= k
    ensures Predictions(seed, k, predict)[..j] == Predictions(seed, j, predict)
    decreases k
  {
    if j < k {
      PredictionsPrefix(seed, j, k - 1, predict);
      assert Predictions(seed, k, predict)[..k - 1] == Predictions(seed, k - 1, predict);
    }
  }

  /**
   * The buffer after `k` steps is the last `|seed|` samples of the seed
   * followed by the first `k` predictions.
   */
  lemma {:induction false} RolloutIsLastWindow<T>(seed: seq<T>, k: nat, predict: seq<T> -> T)
    ensures Rollout(seed, k, predict) == (seed + Predictions(seed, k, predict))[k..k + |seed|]
  {
    if k > 0 {
      RolloutIsLastWindow(seed, k - 1, predict);
      var prev, preds := Rollout(seed, k - 1, predict), Predictions(seed, k - 1, predict);
      var p := predict(prev);
      assert Rollout(seed, k, predict) == Shift(prev, p);
      assert Predictions(seed, k, predict) == preds + [p];
      ShiftWindow(seed + preds, p, k - 1, |seed|);
      assert seed + (preds + [p]) == (seed + preds) + [p];
    }
  }

  /** Shifting the window of `w` that starts at `i` by the next value gives the window starting at `i + 1`. */
  lemma ShiftWindow<T>(w: seq<T>, x: T, i: nat, n: nat)
    requires |w| == i + n
    ensures Shift(w[i..i + n], x) == (w + [x])[i + 1..i + 1 + n]
  {
    if n > 0 {
      assert w[i..i + n][1..] == w[i + 1..];
      assert (w + [x])[i + 1..i + 1 + n] == w[i + 1..] + [x];
    }
  }

  /**
   * Prediction `k` is the network applied to the `|seed|` values just before
   * it in the series "seed, then predictions": the forecast is autoregressive.
   */
  lemma PredictionFromLastWindow<T>(seed: seq<T>, n: nat, k: nat, predict: seq<T> -> T)
    requires k < n
    ensures Predictions(seed, n, predict)[k]
         == predict((seed + Predictions(seed, k, predict))[k..k + |seed|])
  {
    PredictionsPrefix(seed, k + 1, n, predict);
    assert Predictions(seed, n, predict)[k] == Predictions(seed, n, predict)[..k + 1][k];
    RolloutIsLastWindow(seed, k, predict);
  }

  /** Once `|seed|` steps have run, the buffer holds only the last `|seed|` predictions. */
  lemma BufferHoldsOnlyPredictions<T>(seed: seq<T>, k: nat, predict: seq<T> -> T)
    requires k >= |seed|
    ensures Rollout(seed, k, predict) == Predictions(seed, k, predict)[k - |seed|..]
  {
    RolloutIsLastWindow(seed, k, predict);
    var p := Predictions(seed, k, predict);
    assert (seed + p)[k..k + |seed|] == p[k - |seed|..];
  }

}
