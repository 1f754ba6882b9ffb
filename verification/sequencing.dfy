/** Applying a step that may raise to each element of a list in order, as a `for` loop that
    appends each result does: the first exception ends the loop and is what the loop raises. */
module Sequencing {
  import opened Wrappers

  /** `f` applied to `xs` in order; the first failure is the result. */
  function MapAll<A, B, E>(xs: seq<A>, f: A -> Result<B, E>): (r: Result<seq<B>, E>)
    ensures r.Success? ==> |r.value| == |xs|
  {
    if xs == [] then Success([])
    else
      var k := |xs| - 1;
      var init :- MapAll(xs[..k], f);
      var y :- f(xs[k]);
      Success(init + [y])
  }

  /** The loop succeeds exactly when every element's step succeeds, and then holds each
      element's own result, in order. */
  lemma {:induction false} MapAllPointwise<A, B, E>(xs: seq<A>, f: A -> Result<B, E>)
    ensures MapAll(xs, f).Success? ==>
      forall i :: 0 <= i < |xs| ==> f(xs[i]) == Success(MapAll(xs, f).value[i])
    ensures MapAll(xs, f).Success? <==> forall i :: 0 <= i < |xs| ==> f(xs[i]).Success?
  {
    if xs != [] {
      var k := |xs| - 1;
      MapAllPointwise(xs[..k], f);
      assert forall i :: 0 <= i < k ==> xs[..k][i] == xs[i];
    }
  }

  /** A loop that failed failed on some element, every element before it having succeeded,
      and raises that element's exception. */
  lemma {:induction false} MapAllFirstFailure<A, B, E>(xs: seq<A>, f: A -> Result<B, E>)
    ensures MapAll(xs, f).Failure? ==>
      exists i :: 0 <= i < |xs| && f(xs[i]) == Failure(MapAll(xs, f).error)
        && forall j :: 0 <= j < i ==> f(xs[j]).Success?
  {
    if xs != [] && MapAll(xs, f).Failure? {
      var k := |xs| - 1;
      assert forall j :: 0 <= j < k ==> xs[..k][j] == xs[j];
      if MapAll(xs[..k], f).Failure? {
        MapAllFirstFailure(xs[..k], f);
        var i :| 0 <= i < k && f(xs[..k][i]) == Failure(MapAll(xs[..k], f).error)
          && forall j :: 0 <= j < i ==> f(xs[..k][j]).Success?;
        assert f(xs[i]) == Failure(MapAll(xs, f).error);
      } else {
        MapAllPointwise(xs[..k], f);
        assert f(xs[k]) == Failure(MapAll(xs, f).error);
      }
    }
  }

  /** One more element after a prefix that succeeded. */
  lemma MapAllAppend<A, B, E>(xs: seq<A>, x: A, f: A -> Result<B, E>)
    requires MapAll(xs, f).Success?
    ensures f(x).Success? ==> MapAll(xs + [x], f) == Success(MapAll(xs, f).value + [f(x).value])
    ensures f(x).Failure? ==> MapAll(xs + [x], f) == Failure(f(x).error)
  {
    assert (xs + [x])[..|xs|] == xs;
  }

  /** Two lists, one after the other, once the first succeeded. */
  lemma {:induction false} MapAllConcat<A, B, E>(a: seq<A>, b: seq<A>, f: A -> Result<B, E>)
    requires MapAll(a, f).Success?
    ensures MapAll(b, f).Success? ==> MapAll(a + b, f) == Success(MapAll(a, f).value + MapAll(b, f).value)
    ensures MapAll(b, f).Failure? ==> MapAll(a + b, f) == Failure(MapAll(b, f).error)
    decreases |b|
  {
    if b == [] {
      assert a + b == a;
      assert MapAll(a, f).value + MapAll(b, f).value == MapAll(a, f).value;
    } else {
      var k := |b| - 1;
      MapAllConcat(a, b[..k], f);
      assert (a + b)[..|a| + k] == a + b[..k];
      assert (a + b)[|a| + k] == b[k];
      if MapAll(b[..k], f).Success? && f(b[k]).Success? {
        assert MapAll(b, f).value == MapAll(b[..k], f).value + [f(b[k]).value];
        assert MapAll(a + b, f).value == MapAll(a + b[..k], f).value + [f(b[k]).value];
        var x, y, z := MapAll(a, f).value, MapAll(b[..k], f).value, [f(b[k]).value];
        assert (x + y) + z == x + (y + z);
      }
    }
  }

  /** Once a prefix fails, the whole list fails with that exception. */
  lemma {:induction false} MapAllFailsFromPrefix<A, B, E>(xs: seq<A>, longer: seq<A>, f: A -> Result<B, E>)
    requires xs <= longer
    requires MapAll(xs, f).Failure?
    ensures MapAll(longer, f) == MapAll(xs, f)
    decreases |longer|
  {
    if |longer| > |xs| {
      var k := |longer| - 1;
      assert xs <= longer[..k];
      MapAllFailsFromPrefix(xs, longer[..k], f);
    } else {
      assert longer == xs;
    }
  }

  /** One more turn of the loop: the results so far extend by element `j`'s result, or the
      whole list fails with element `j`'s exception. */
  lemma MapAllStep<A, B, E>(xs: seq<A>, j: nat, f: A -> Result<B, E>, done: seq<B>)
    requires j < |xs| && MapAll(xs[..j], f) == Success(done)
    ensures f(xs[j]).Success? ==> MapAll(xs[..j + 1], f) == Success(done + [f(xs[j]).value])
    ensures f(xs[j]).Failure? ==> MapAll(xs, f) == Failure(f(xs[j]).error)
  {
    assert xs[..j + 1][..j] == xs[..j];
    if f(xs[j]).Failure? {
      MapAllFailsFromPrefix(xs[..j + 1], xs, f);
    }
  }
}
