/** Applying a parser to every element of a sequence, the way the scrapers'
    `for` loops do: results in order, and the first exception ends the loop. */
module Traversal {
  import opened Wrappers

  /** The results of `f` on every element of `xs`, or the error of the first
      element on which `f` fails. */
  function Traverse<T, R, E>(f: T -> Result<R, E>, xs: seq<T>): Result<seq<R>, E>
    decreases |xs|
  {
    if xs == [] then Success([])
    else
      var init :- Traverse(f, xs[..|xs| - 1]);
      var last :- f(xs[|xs| - 1]);
      Success(init + [last])
  }

  /** One result per element, in order, exactly when `f` succeeds on every element. */
  lemma {:induction false} TraverseInOrder<T, R, E>(f: T -> Result<R, E>, xs: seq<T>)
    ensures Traverse(f, xs).Success? <==> forall i :: 0 <= i < |xs| ==> f(xs[i]).Success?
    ensures Traverse(f, xs).Success? ==>
              |Traverse(f, xs).value| == |xs| &&
              forall i :: 0 <= i < |xs| ==> Traverse(f, xs).value[i] == f(xs[i]).value
    decreases |xs|
  {
    if xs != [] {
      var n := |xs| - 1;
      var init := xs[..n];
      TraverseInOrder(f, init);
      assert forall i :: 0 <= i < n ==> init[i] == xs[i];
    }
  }

  /** A failing traversal fails with the error of the first element `f` rejects. */
  lemma {:induction false} TraverseFailsAtFirst<T, R, E>(f: T -> Result<R, E>, xs: seq<T>)
    requires Traverse(f, xs).Failure?
    ensures exists k :: 0 <= k < |xs| && f(xs[k]).Failure? &&
                        Traverse(f, xs).error == f(xs[k]).error &&
                        forall j :: 0 <= j < k ==> f(xs[j]).Success?
    decreases |xs|
  {
    var n := |xs| - 1;
    var init := xs[..n];
    assert forall i :: 0 <= i < n ==> init[i] == xs[i];
    if Traverse(f, init).Failure? {
      TraverseFailsAtFirst(f, init);
      var k :| 0 <= k < n && f(init[k]).Failure? &&
               Traverse(f, init).error == f(init[k]).error &&
               forall j :: 0 <= j < k ==> f(init[j]).Success?;
      assert f(xs[k]) == f(init[k]);
    } else {
      TraverseInOrder(f, init);
    }
  }

  /** Once a prefix fails, the whole sequence fails with the same error. */
  lemma {:induction false} PrefixFailureIsFinal<T, R, E>(f: T -> Result<R, E>, xs: seq<T>, k: nat)
    requires k <= |xs| && Traverse(f, xs[..k]).Failure?
    ensures Traverse(f, xs) == Traverse(f, xs[..k])
    decreases |xs| - k
  {
    if k == |xs| {
      assert xs[..k] == xs;
    } else {
      assert xs[..k + 1][..k] == xs[..k];
      PrefixFailureIsFinal(f, xs, k + 1);
    }
  }

  /** A traversal extended by one successful element. */
  lemma TraverseSnoc<T, R, E>(f: T -> Result<R, E>, xs: seq<T>, k: nat, acc: seq<R>)
    requires k < |xs| && Traverse(f, xs[..k]) == Success(acc) && f(xs[k]).Success?
    ensures Traverse(f, xs[..k + 1]) == Success(acc + [f(xs[k]).value])
  {
    assert xs[..k + 1][..k] == xs[..k];
  }

  /** The values of `f` on the elements of `xs`, in order, where `f` may also
      give nothing for an element; the first failure decides the outcome. */
  function Gather<T, R, E>(f: T -> Result<Option<R>, E>, xs: seq<T>): Result<seq<R>, E>
    decreases |xs|
  {
    if xs == [] then Success([])
    else
      var init :- Gather(f, xs[..|xs| - 1]);
      var last :- f(xs[|xs| - 1]);
      Success(if last.Some? then init + [last.value] else init)
  }

  /** Two gathered results joined: the first failure, or both value sequences. */
  function Joined<R, E>(a: Result<seq<R>, E>, b: Result<seq<R>, E>): Result<seq<R>, E> {
    if a.Failure? then a else if b.Failure? then b else Success(a.value + b.value)
  }

  /** Gathering a concatenation gathers each part: order is kept. */
  lemma {:induction false} GatherAppend<T, R, E>(f: T -> Result<Option<R>, E>, a: seq<T>, b: seq<T>)
    ensures Gather(f, a + b) == Joined(Gather(f, a), Gather(f, b))
    decreases |b|
  {
    if b == [] {
      assert a + b == a;
      if Gather(f, a).Success? {
        assert Gather(f, a).value + [] == Gather(f, a).value;
      }
    } else {
      var n := |b| - 1;
      assert (a + b)[..|a + b| - 1] == a + b[..n];
      assert (a + b)[|a + b| - 1] == b[n];
      GatherAppend(f, a, b[..n]);
      var ga, gb := Gather(f, a), Gather(f, b[..n]);
      var last := f(b[n]);
      if ga.Success? && gb.Success? && last.Success? && last.value.Some? {
        assert (ga.value + gb.value) + [last.value.value] == ga.value + (gb.value + [last.value.value]);
      }
    }
  }

  /** An element on which `f` gives nothing can be removed without changing the
      outcome. */
  lemma GatherSkips<T, R, E>(f: T -> Result<Option<R>, E>, a: seq<T>, x: T, b: seq<T>)
    requires f(x) == Success(None)
    ensures Gather(f, a + [x] + b) == Gather(f, a + b)
  {
    GatherAppend(f, a + [x], b);
    GatherAppend(f, a, [x]);
    GatherAppend(f, a, b);
    assert [x][..0] == [];
    if Gather(f, a).Success? {
      assert Gather(f, a).value + [] == Gather(f, a).value;
    }
  }

  /** When `f` gives a value for every element, there is one value per element,
      in order. */
  lemma {:induction false} GatherAll<T, R, E>(f: T -> Result<Option<R>, E>, xs: seq<T>)
    requires forall i :: 0 <= i < |xs| ==> f(xs[i]).Success? && f(xs[i]).value.Some?
    ensures Gather(f, xs).Success? && |Gather(f, xs).value| == |xs|
    ensures forall i :: 0 <= i < |xs| ==> f(xs[i]) == Success(Some(Gather(f, xs).value[i]))
    decreases |xs|
  {
    if xs != [] {
      var n := |xs| - 1;
      var init := xs[..n];
      assert forall i :: 0 <= i < n ==> init[i] == xs[i];
      GatherAll(f, init);
    }
  }

  /** One element on which `f` fails makes the whole gathering fail. */
  lemma GatherFails<T, R, E>(f: T -> Result<Option<R>, E>, xs: seq<T>, k: nat)
    requires k < |xs| && f(xs[k]).Failure?
    ensures Gather(f, xs).Failure?
  {
    assert xs == (xs[..k] + [xs[k]]) + xs[k + 1..];
    GatherAppend(f, xs[..k] + [xs[k]], xs[k + 1..]);
    GatherAppend(f, xs[..k], [xs[k]]);
    assert [xs[k]][..0] == [];
  }

  /** The concatenation of `f` over the elements of `xs`, in order. */
  function Flatten<T, U>(f: T -> seq<U>, xs: seq<T>): seq<U>
    decreases |xs|
  {
    if xs == [] then [] else Flatten(f, xs[..|xs| - 1]) + f(xs[|xs| - 1])
  }

  /** Flattening a concatenation flattens each part. */
  lemma {:induction false} FlattenAppend<T, U>(f: T -> seq<U>, a: seq<T>, b: seq<T>)
    ensures Flatten(f, a + b) == Flatten(f, a) + Flatten(f, b)
    decreases |b|
  {
    if b == [] {
      assert a + b == a;
    } else {
      var n := |b| - 1;
      assert (a + b)[..|a + b| - 1] == a + b[..n];
      assert (a + b)[|a + b| - 1] == b[n];
      FlattenAppend(f, a, b[..n]);
    }
  }
}
