/** Option and Result, the Python exceptions the modelled code raises, and loops over
    sequences that stop at the first exception. */
module Wrappers {

  datatype Option<+T> = None | Some(value: T)

  /** The exception kinds raised by the modelled code, with the key or message that
      distinguishes them where the code gives one. */
  datatype Error =
    | TypeError(msg: string)
    | ValueError(msg: string)
    | KeyError(key: string)
    | AttributeError(msg: string)
    | ZeroDivisionError

  /** A value, or the exception that interrupted its computation. */
  datatype Result<+T> = Ok(value: T) | Err(error: Error) {

    predicate IsFailure() {
      Err?
    }

    function PropagateFailure<U>(): Result<U>
      requires Err?
    {
      Err(error)
    }

    function Extract(): T
      requires Ok?
    {
      value
    }
  }

  /** A loop that applies `f` to each element in turn and stops at the first exception:
      the results in order, or that exception. */
  function MapResult<T, U>(xs: seq<T>, f: T -> Result<U>): Result<seq<U>> {
    if xs == [] then Ok([])
    else
      var init :- MapResult(xs[..|xs| - 1], f);
      var y :- f(xs[|xs| - 1]);
      Ok(init + [y])
  }

  /** The loop succeeds exactly when every step does, with one result per element. */
  lemma {:induction false} MapResultOk<T, U>(xs: seq<T>, f: T -> Result<U>)
    ensures MapResult(xs, f).Ok? <==> forall i :: 0 <= i < |xs| ==> f(xs[i]).Ok?
    ensures MapResult(xs, f).Ok? ==>
              && |MapResult(xs, f).value| == |xs|
              && forall i :: 0 <= i < |xs| ==> MapResult(xs, f).value[i] == f(xs[i]).value
  {
    if xs != [] {
      var init := xs[..|xs| - 1];
      MapResultOk(init, f);
      assert forall i :: 0 <= i < |init| ==> init[i] == xs[i];
    }
  }

  /** One more step of the loop: it fails if the loop so far or the step fails, and
      otherwise appends the step's result. */
  lemma MapResultStep<T, U>(xs: seq<T>, f: T -> Result<U>, i: nat)
    requires i < |xs|
    ensures MapResult(xs[..i + 1], f) ==
            match MapResult(xs[..i], f)
            case Err(e) => Err(e)
            case Ok(a) =>
              match f(xs[i])
              case Err(e) => Err(e)
              case Ok(y) => Ok(a + [y])
  {
    assert xs[..i + 1][..i] == xs[..i];
  }

  /** A loop whose first `i` steps fail ends with that failure. */
  lemma {:induction false} MapResultPrefixError<T, U>(xs: seq<T>, f: T -> Result<U>, i: nat)
    requires i <= |xs| && MapResult(xs[..i], f).Err?
    ensures MapResult(xs, f) == MapResult(xs[..i], f)
    decreases |xs| - i
  {
    if i < |xs| {
      assert xs[..i + 1][..i] == xs[..i];
      MapResultPrefixError(xs, f, i + 1);
    } else {
      assert xs[..i] == xs;
    }
  }

  /** The first failing step is the loop's failure. */
  lemma {:induction false} MapResultFirstError<T, U>(xs: seq<T>, f: T -> Result<U>, i: nat)
    requires i < |xs| && f(xs[i]).Err?
    requires forall j :: 0 <= j < i ==> f(xs[j]).Ok?
    ensures MapResult(xs, f) == Err(f(xs[i]).error)
  {
    MapResultOk(xs[..i], f);
    assert forall j :: 0 <= j < i ==> xs[..i][j] == xs[j];
    assert xs[..i + 1][..i] == xs[..i];
    MapResultPrefixError(xs, f, i + 1);
  }

  /** Looping over `xs + ys` is looping over `xs`, then, if that succeeded, over `ys`. */
  lemma {:induction false} MapResultAppend<T, U>(xs: seq<T>, ys: seq<T>, f: T -> Result<U>)
    ensures MapResult(xs + ys, f) ==
            match MapResult(xs, f)
            case Err(e) => Err(e)
            case Ok(a) =>
              match MapResult(ys, f)
              case Err(e) => Err(e)
              case Ok(b) => Ok(a + b)
  {
    if ys == [] {
      assert xs + ys == xs;
      if MapResult(xs, f).Ok? {
        assert MapResult(xs, f).value + [] == MapResult(xs, f).value;
      }
    } else {
      var init := ys[..|ys| - 1];
      assert (xs + ys)[..|xs + ys| - 1] == xs + init;
      MapResultAppend(xs, init, f);
      if MapResult(xs, f).Ok? && MapResult(init, f).Ok? && f(ys[|ys| - 1]).Ok? {
        var a, b, y := MapResult(xs, f).value, MapResult(init, f).value, f(ys[|ys| - 1]).value;
        assert a + b + [y] == a + (b + [y]);
      }
    }
  }

  /** The elements of every batch, one batch after another. */
  function Flatten<T>(batches: seq<seq<T>>): seq<T> {
    if batches == [] then []
    else Flatten(batches[..|batches| - 1]) + batches[|batches| - 1]
  }
}
