/**
 * The call `train_test_split(x, t, test_size=0.2, shuffle=False)` of
 * RNN/lstm.py. Without shuffling it keeps the first `cut` examples for
 * training and the rest for validation. How `cut` follows from `test_size`
 * is the library's rule and is passed in here.
 */
module Split {
  import Windowing

  datatype SplitError = InconsistentLengths(inputs: nat, targets: nat)

  datatype Result<R> = Ok(value: R) | Err(error: SplitError)

  /** The four lists the call returns. */
  datatype TrainVal<X, Y> = TrainVal(xTrain: seq<X>, xVal: seq<X>, tTrain: seq<Y>, tVal: seq<Y>)

  /**
   * Splits inputs and targets at the same index. Inputs and targets of
   * different lengths are refused, as the library does.
   */
  function TemporalSplit<X, Y>(x: seq<X>, t: seq<Y>, cut: nat): (r: Result<TrainVal<X, Y>>)
    requires cut <= |x|
    ensures r.Err? <==> |x| != |t|
    ensures r.Err? ==> r.error == InconsistentLengths(|x|, |t|)
    ensures r.Ok? ==> r.value.xTrain + r.value.xVal == x && r.value.tTrain + r.value.tVal == t
    ensures r.Ok? ==> |r.value.xTrain| == |r.value.tTrain| == cut
    ensures r.Ok? ==> |r.value.xVal| == |r.value.tVal| == |x| - cut
  {
    if |x| != |t| then Err(InconsistentLengths(|x|, |t|))
    else Ok(TrainVal(x[..cut], x[cut..], t[..cut], t[cut..]))
  }

  /**
   * Every example keeps its place in time: training example `i` is example
   * `i`, validation example `j` is example `cut + j`, and each input still
   * sits beside its own target.
   */
  lemma SplitKeepsPairs<X, Y>(x: seq<X>, t: seq<Y>, cut: nat)
    requires cut <= |x| == |t|
    ensures TemporalSplit(x, t, cut).Ok?
    ensures var s := TemporalSplit(x, t, cut).value;
      && (forall i :: 0 <= i < cut ==> s.xTrain[i] == x[i] && s.tTrain[i] == t[i])
      && (forall j :: 0 <= j < |x| - cut ==> s.xVal[j] == x[cut + j] && s.tVal[j] == t[cut + j])
  {
    var s := TemporalSplit(x, t, cut).value;
    forall j | 0 <= j < |x| - cut ensures s.xVal[j] == x[cut + j] && s.tVal[j] == t[cut + j] {
      assert s.xVal[j] == (s.xTrain + s.xVal)[cut + j];
      assert s.tVal[j] == (s.tTrain + s.tVal)[cut + j];
    }
  }

  /**
   * Applied to the windowed signal, the validation set is the windows that
   * start at `cut` or later: validation example `j` is the window starting
   * at `cut + j` and its target is the sample `cut + j + maxlen`.
   */
  lemma ValidationWindows<T>(f: seq<T>, maxlen: nat, cut: nat)
    requires cut <= Windowing.ExampleCount(|f|, maxlen)
    ensures TemporalSplit(Windowing.Windows(f, maxlen), Windowing.Targets(f, maxlen), cut).Ok?
    ensures var s := TemporalSplit(Windowing.Windows(f, maxlen), Windowing.Targets(f, maxlen), cut).value;
      forall j :: 0 <= j < |s.xVal| ==>
        s.xVal[j] == f[cut + j..cut + j + maxlen] && s.tVal[j] == f[cut + j + maxlen]
  {
    var x, t := Windowing.Windows(f, maxlen), Windowing.Targets(f, maxlen);
    SplitKeepsPairs(x, t, cut);
    var s := TemporalSplit(x, t, cut).value;
    forall j | 0 <= j < |s.xVal|
      ensures s.xVal[j] == f[cut + j..cut + j + maxlen] && s.tVal[j] == f[cut + j + maxlen]
    {
      assert s.xVal[j] == x[cut + j] && s.tVal[j] == t[cut + j];
    }
  }
}
