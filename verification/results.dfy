/** Failure-compatible wrappers shared by the whole model, and the error
    conditions the modelled code can raise. */
module Results {

  /** Python's `None`-or-value. */
  datatype Option<+T> = None | Some(value: T)

  /** The exceptions the core raises, one constructor per condition. */
  datatype Error =
    | UnknownFeature(name: string)       // KeyError: template names a feature the vocabulary lacks
    | NotFitted                          // TypeError: the encoder state is still None
    | MissingToken(position: nat)        // KeyError: a token dict has no 'token' key
    | Misaligned(tokens: nat, labels: nat) // AssertionError: label count differs from token count
    | IncompleteDevData                  // ValueError: only one of X_dev / y_dev was passed

  datatype Result<+T> = Success(value: T) | Failure(error: Error) {

    predicate IsFailure() {
      Failure?
    }

    function PropagateFailure<U>(): Result<U>
      requires Failure?
    {
      Failure(error)
    }

    function Extract(): T
      requires Success?
    {
      value
    }
  }

  /** A list comprehension `[f(x) for x in xs]` whose `f` may raise: the
      first element that fails aborts the whole list with its error. */
  function MapResult<A, B>(xs: seq<A>, f: A -> Result<B>): Result<seq<B>>
    decreases |xs|
  {
    if |xs| == 0 then Success([])
    else
      var head :- f(xs[0]);
      var tail :- MapResult(xs[1..], f);
      Success([head] + tail)
  }

  /** The comprehension succeeds exactly when every element does, keeps
      length and order, and otherwise reports the first failure. */
  lemma {:induction false} MapResultSpec<A, B>(xs: seq<A>, f: A -> Result<B>)
    ensures MapResult(xs, f).Success? <==> forall k :: 0 <= k < |xs| ==> f(xs[k]).Success?
    ensures MapResult(xs, f).Success? ==>
      (|MapResult(xs, f).value| == |xs|
       && forall k :: 0 <= k < |xs| ==> f(xs[k]) == Success(MapResult(xs, f).value[k]))
    ensures MapResult(xs, f).Failure? ==>
      exists k :: (0 <= k < |xs| && f(xs[k]) == Failure(MapResult(xs, f).error)
        && forall j :: 0 <= j < k ==> f(xs[j]).Success?)
    decreases |xs|
  {
    if |xs| > 0 {
      MapResultSpec(xs[1..], f);
      assert forall k :: 1 <= k < |xs| ==> xs[k] == xs[1..][k - 1];
      var r := MapResult(xs, f);
      if f(xs[0]).Success? && r.Failure? {
        var k :| 0 <= k < |xs[1..]| && f(xs[1..][k]) == Failure(r.error)
          && forall j :: 0 <= j < k ==> f(xs[1..][j]).Success?;
        assert f(xs[k + 1]) == Failure(r.error);
      }
    }
  }
}
