/**
 * The loop shape both CSV functions of the core share: an operation applied
 * to each element in turn, its results collected in order, the first
 * failure ending the loop with that failure.
 */
module Each {
  import opened Wrappers

  /** `f` applied to each element of `xs` in turn; the first failure stops the loop. */
  function Apply<A, B, E>(xs: seq<A>, f: A -> Result<B, E>): (r: Result<seq<B>, E>)
    ensures r.Success? ==> |r.value| == |xs|
    decreases |xs|
  {
    if xs == [] then Success([])
    else
      match Apply(xs[..|xs| - 1], f)
      case Failure(e) => Failure(e)
      case Success(ys) =>
        match f(xs[|xs| - 1])
        case Failure(e) => Failure(e)
        case Success(y) => Success(ys + [y])
  }

  /** One more element: the results grow by its result, or the loop fails with its error. */
  lemma ApplyStep<A, B, E>(xs: seq<A>, i: nat, f: A -> Result<B, E>)
    requires i < |xs| && Apply(xs[..i], f).Success?
    ensures Apply(xs[..i + 1], f) ==
      match f(xs[i])
      case Failure(e) => Failure(e)
      case Success(y) => Success(Apply(xs[..i], f).value + [y])
  {
    assert xs[..i + 1][..i] == xs[..i];
    assert xs[..i + 1][i] == xs[i];
  }

  /** Once a prefix fails, the later elements change nothing. */
  lemma {:induction false} FailureStops<A, B, E>(xs: seq<A>, n: nat, f: A -> Result<B, E>)
    requires n <= |xs| && Apply(xs[..n], f).Failure?
    ensures Apply(xs, f) == Apply(xs[..n], f)
    decreases |xs| - n
  {
    if n < |xs| {
      assert xs[..|xs| - 1][..n] == xs[..n];
      FailureStops(xs[..|xs| - 1], n, f);
    } else {
      assert xs[..n] == xs;
    }
  }

  /** Each result stands at the index of its element. */
  lemma {:induction false} AppliedInOrder<A, B, E>(xs: seq<A>, f: A -> Result<B, E>)
    requires Apply(xs, f).Success?
    ensures forall i :: 0 <= i < |xs| ==> f(xs[i]) == Success(Apply(xs, f).value[i])
    decreases |xs|
  {
    if xs != [] {
      var n := |xs| - 1;
      var init := xs[..n];
      var all := Apply(xs, f);
      var prev := Apply(init, f);
      assert prev.Success? && f(xs[n]).Success?;
      assert all.value == prev.value + [f(xs[n]).value];
      AppliedInOrder(init, f);
      forall i | 0 <= i < |xs|
        ensures f(xs[i]) == Success(all.value[i])
      {
        if i < n {
          assert init[i] == xs[i];
        }
      }
    }
  }

  /** The loop succeeds when every element does. */
  lemma {:induction false} AllSucceed<A, B, E>(xs: seq<A>, f: A -> Result<B, E>)
    requires forall i :: 0 <= i < |xs| ==> f(xs[i]).Success?
    ensures Apply(xs, f).Success?
    decreases |xs|
  {
    if xs != [] {
      var n := |xs| - 1;
      assert forall i :: 0 <= i < n ==> xs[..n][i] == xs[i];
      AllSucceed(xs[..n], f);
    }
  }

  /** The loop gives exactly the results of its elements, in order. */
  lemma {:induction false} AllMapped<A, B, E>(xs: seq<A>, f: A -> Result<B, E>, ys: seq<B>)
    requires |ys| == |xs| && forall i :: 0 <= i < |xs| ==> f(xs[i]) == Success(ys[i])
    ensures Apply(xs, f) == Success(ys)
    decreases |xs|
  {
    if xs != [] {
      var n := |xs| - 1;
      assert forall i :: 0 <= i < n ==> xs[..n][i] == xs[i] && ys[..n][i] == ys[i];
      AllMapped(xs[..n], f, ys[..n]);
      assert ys[..n] + [ys[n]] == ys;
    }
  }

  /** A failure is the error of the first element that fails. */
  lemma {:induction false} FirstFailure<A, B, E>(xs: seq<A>, f: A -> Result<B, E>)
    requires Apply(xs, f).Failure?
    ensures exists i :: 0 <= i < |xs| && f(xs[i]) == Failure(Apply(xs, f).error) && forall j :: 0 <= j < i ==> f(xs[j]).Success?
    decreases |xs|
  {
    var n := |xs| - 1;
    var init := xs[..n];
    if Apply(init, f).Failure? {
      FirstFailure(init, f);
      var i :| 0 <= i < |init| && f(init[i]) == Failure(Apply(init, f).error) && forall j :: 0 <= j < i ==> f(init[j]).Success?;
      assert forall j :: 0 <= j <= i ==> init[j] == xs[j];
    } else {
      AppliedInOrder(init, f);
      assert forall j :: 0 <= j < n ==> init[j] == xs[j];
      assert f(xs[n]) == Failure(Apply(xs, f).error);
    }
  }

  /** A failing element makes the whole loop fail. */
  lemma OneFailureFails<A, B, E>(xs: seq<A>, i: nat, f: A -> Result<B, E>)
    requires i < |xs| && f(xs[i]).Failure?
    ensures Apply(xs, f).Failure?
  {
    if Apply(xs, f).Success? {
      AppliedInOrder(xs, f);
    }
  }
}
