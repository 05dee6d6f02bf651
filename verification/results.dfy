/** Failure-compatible wrappers used throughout the model. */
module Results {

  /** A value that may be missing, as a JavaScript `undefined` would be. */
  datatype Option<+T> = None | Some(value: T)

  /** The outcome of a computation that may throw: a value, or the error it throws. */
  datatype Result<+T, +E> = Success(value: T) | Failure(error: E) {

    predicate IsFailure() {
      Failure?
    }

    function PropagateFailure<U>(): Result<U, E>
      requires Failure?
    {
      Failure(error)
    }

    function Extract(): T
      requires Success?
    {
      value
    }
  }

  /** Runs two sequence-producing steps one after the other: the first failure wins,
      otherwise the outputs are concatenated in order. */
  function Then<T, E>(a: Result<seq<T>, E>, b: Result<seq<T>, E>): (r: Result<seq<T>, E>)
    ensures r.Success? <==> a.Success? && b.Success?
    ensures r.Success? ==> r.value == a.value + b.value
    ensures a.Failure? ==> r == a
    ensures a.Success? && b.Failure? ==> r == Failure(b.error)
  {
    var x :- a;
    var y :- b;
    Success(x + y)
  }

  lemma ThenAssociative<T, E>(a: Result<seq<T>, E>, b: Result<seq<T>, E>, c: Result<seq<T>, E>)
    ensures Then(Then(a, b), c) == Then(a, Then(b, c))
  {
    if a.Success? && b.Success? && c.Success? {
      assert (a.value + b.value) + c.value == a.value + (b.value + c.value);
    }
  }

  /** Runs a list of sequence-producing steps in order: the first failure wins, otherwise the
      outputs are concatenated in order. */
  function ConcatAll<T, E>(blocks: seq<Result<seq<T>, E>>): Result<seq<T>, E>
    decreases |blocks|
  {
    if blocks == [] then Success([])
    else Then(ConcatAll(blocks[..|blocks| - 1]), blocks[|blocks| - 1])
  }

  lemma ConcatAllStep<T, E>(blocks: seq<Result<seq<T>, E>>, b: Result<seq<T>, E>)
    ensures ConcatAll(blocks + [b]) == Then(ConcatAll(blocks), b)
  {
  }

  /** The run succeeds exactly when every step does. */
  lemma {:induction false} ConcatAllSucceeds<T, E>(blocks: seq<Result<seq<T>, E>>)
    ensures ConcatAll(blocks).Success? <==> forall k :: 0 <= k < |blocks| ==> blocks[k].Success?
    decreases |blocks|
  {
    if blocks != [] {
      var init := blocks[..|blocks| - 1];
      ConcatAllSucceeds(init);
      assert forall k :: 0 <= k < |init| ==> init[k] == blocks[k];
    }
  }

  /** A failing run reports the error of its first failing step. */
  lemma {:induction false} ConcatAllFirstFailure<T, E>(blocks: seq<Result<seq<T>, E>>)
    ensures ConcatAll(blocks).Failure? ==>
      exists k :: 0 <= k < |blocks| && blocks[k].Failure? && ConcatAll(blocks).error == blocks[k].error
        && forall k' :: 0 <= k' < k ==> blocks[k'].Success?
    decreases |blocks|
  {
    if blocks != [] && ConcatAll(blocks).Failure? {
      var init := blocks[..|blocks| - 1];
      assert forall k :: 0 <= k < |init| ==> init[k] == blocks[k];
      if ConcatAll(init).Failure? {
        ConcatAllFirstFailure(init);
        var k :| 0 <= k < |init| && init[k].Failure? && ConcatAll(init).error == init[k].error
          && forall k' :: 0 <= k' < k ==> init[k'].Success?;
        assert blocks[k] == init[k];
      } else {
        ConcatAllSucceeds(init);
      }
    }
  }

  /** Once a prefix of the steps has failed, the remaining steps change nothing. */
  lemma {:induction false} ConcatAllSticks<T, E>(blocks: seq<Result<seq<T>, E>>, m: nat)
    requires m <= |blocks| && ConcatAll(blocks[..m]).Failure?
    ensures ConcatAll(blocks) == ConcatAll(blocks[..m])
    decreases |blocks|
  {
    if m < |blocks| {
      var init := blocks[..|blocks| - 1];
      assert init[..m] == blocks[..m];
      ConcatAllSticks(init, m);
    } else {
      assert blocks[..m] == blocks;
    }
  }
}
