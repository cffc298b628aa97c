/** Applying a step that may raise to every element of a list, in order: the shape of the
    classification loop and of the risk stage's per-clause tasks. */
module ResultSeq {
  import opened Outcomes

  /** The results of `f` on each element, in order; the first element on which `f` raises
      stops the run, and its exception is what the run raises. */
  function MapAll<A, B>(xs: seq<A>, f: A -> Result<B>): (r: Result<seq<B>>)
    ensures r.Success? ==> |r.value| == |xs|
    decreases |xs|
  {
    if xs == [] then Success([])
    else
      match MapAll(xs[..|xs| - 1], f)
      case Failure(e) => Failure(e)
      case Success(ys) =>
        match f(xs[|xs| - 1])
        case Failure(e) => Failure(e)
        case Success(y) => Success(ys + [y])
  }

  /** The run succeeds exactly when `f` succeeds on every element, and then holds `f`'s result
      for each element at that element's position. */
  lemma {:induction false} MapAllSuccess<A, B>(xs: seq<A>, f: A -> Result<B>)
    ensures MapAll(xs, f).Success? <==> forall i :: 0 <= i < |xs| ==> f(xs[i]).Success?
    ensures MapAll(xs, f).Success? ==>
      forall i :: 0 <= i < |xs| ==> MapAll(xs, f).value[i] == f(xs[i]).value
    decreases |xs|
  {
    if xs != [] {
      var init := xs[..|xs| - 1];
      MapAllSuccess(init, f);
      assert forall i :: 0 <= i < |init| ==> init[i] == xs[i];
    }
  }

  /** When `f` raises on element `k` and on none before it, the run raises that exception. */
  lemma {:induction false} MapAllFirstFailure<A, B>(xs: seq<A>, k: nat, f: A -> Result<B>)
    requires k < |xs| && f(xs[k]).Failure?
    requires forall i :: 0 <= i < k ==> f(xs[i]).Success?
    ensures MapAll(xs, f) == Failure(f(xs[k]).error)
    decreases |xs|
  {
    var init := xs[..|xs| - 1];
    assert forall i :: 0 <= i < |init| ==> init[i] == xs[i];
    if k == |xs| - 1 {
      MapAllSuccess(init, f);
    } else {
      MapAllFirstFailure(init, k, f);
    }
  }

  /** A run that raises raises the exception of the first element on which `f` raises. */
  lemma {:induction false} MapAllFailure<A, B>(xs: seq<A>, f: A -> Result<B>)
    ensures MapAll(xs, f).Failure? ==>
      exists k :: 0 <= k < |xs| && f(xs[k]).Failure? && (forall i :: 0 <= i < k ==> f(xs[i]).Success?)
        && MapAll(xs, f).error == f(xs[k]).error
    decreases |xs|
  {
    if xs != [] {
      var init := xs[..|xs| - 1];
      assert forall i :: 0 <= i < |init| ==> init[i] == xs[i];
      MapAllFailure(init, f);
      if MapAll(init, f).Success? {
        MapAllSuccess(init, f);
        assert f(xs[|xs| - 1]).Failure? ==> MapAll(xs, f).error == f(xs[|xs| - 1]).error;
      }
    }
  }

  /** One more element: the run over `xs[..k + 1]` extends the run over `xs[..k]`. */
  lemma MapAllStep<A, B>(xs: seq<A>, k: nat, f: A -> Result<B>)
    requires k < |xs| && MapAll(xs[..k], f).Success? && f(xs[k]).Success?
    ensures MapAll(xs[..k + 1], f) == Success(MapAll(xs[..k], f).value + [f(xs[k]).value])
  {
    assert xs[..k + 1][..k] == xs[..k];
  }
}
