/**
 * The sliding-window example builder of RNN/lstm.py: every contiguous window
 * of `maxlen` samples of the signal becomes an input, and the sample right
 * after it becomes that input's target.
 *
 * The samples are of an arbitrary type `T`; the reshape into an
 * (examples x maxlen x 1) array only adds a unit axis, so an input is a
 * `seq<T>` and the inputs are a `seq<seq<T>>`.
 */
module Windowing {

  /** How many iterations `range(len(f) - maxlen)` makes: none when the signal is not longer than a window. */
  function ExampleCount(n: nat, maxlen: nat): nat {
    if n > maxlen then n - maxlen else 0
  }

  /** The inputs the builder produces, one window per start index. */
  function Windows<T>(f: seq<T>, maxlen: nat): seq<seq<T>> {
    seq(ExampleCount(|f|, maxlen), i requires 0 <= i < ExampleCount(|f|, maxlen) => f[i..i + maxlen])
  }

  /** The targets the builder produces, one per window. */
  function Targets<T>(f: seq<T>, maxlen: nat): seq<T> {
    seq(ExampleCount(|f|, maxlen), i requires 0 <= i < ExampleCount(|f|, maxlen) => f[i + maxlen])
  }

  /**
   * The loop that appends `f[i:i+maxlen]` to `x` and `f[i+maxlen]` to `t`
   * for every `i` in `[0, len(f) - maxlen)`.
   */
  method BuildExamples<T>(f: seq<T>, maxlen: nat) returns (x: seq<seq<T>>, t: seq<T>)
    ensures |x| == |t| == ExampleCount(|f|, maxlen)
    ensures |f| > maxlen ==> |x| == |f| - maxlen
    ensures forall i :: 0 <= i < |x| ==> |x[i]| == maxlen && x[i] == f[i..i + maxlen]
    ensures forall i :: 0 <= i < |t| ==> t[i] == f[i + maxlen]
    ensures x == Windows(f, maxlen) && t == Targets(f, maxlen)
  {
    x, t := [], [];
    var i := 0;
    while i < |f| - maxlen
      invariant 0 <= i <= ExampleCount(|f|, maxlen)
      invariant |x| == |t| == i
      invariant forall k :: 0 <= k < i ==> x[k] == f[k..k + maxlen] && t[k] == f[k + maxlen]
    {
      x := x + [f[i..i + maxlen]];
      t := t + [f[i + maxlen]];
      i := i + 1;
    }
  }

  /**
   * Consecutive windows share `maxlen - 1` samples: window `i + 1` is window
   * `i` shifted left by one, with target `i` moved in at the end.
   */
  lemma WindowsOverlap<T>(f: seq<T>, maxlen: nat, i: nat)
    requires maxlen > 0 && i + 1 < ExampleCount(|f|, maxlen)
    ensures Windows(f, maxlen)[i + 1][..maxlen - 1] == Windows(f, maxlen)[i][1..]
    ensures Windows(f, maxlen)[i + 1][maxlen - 1] == Targets(f, maxlen)[i]
    ensures Windows(f, maxlen)[i + 1] == Windows(f, maxlen)[i][1..] + [Targets(f, maxlen)[i]]
  {
    var x, t := Windows(f, maxlen), Targets(f, maxlen);
    assert x[i + 1][..maxlen - 1] == f[i + 1..i + maxlen] == x[i][1..];
  }

  /**
   * The examples lose no sample: the first window followed by all targets is
   * the whole signal again.
   */
  lemma {:induction false} SignalFromExamples<T>(f: seq<T>, maxlen: nat)
    requires |f| > maxlen
    ensures Windows(f, maxlen)[0] + Targets(f, maxlen) == f
  {
    var t := Targets(f, maxlen);
    assert t == f[maxlen..] by {
      forall k | 0 <= k < |t| ensures t[k] == f[maxlen..][k] { }
    }
    assert f[..maxlen] + f[maxlen..] == f;
  }
}
