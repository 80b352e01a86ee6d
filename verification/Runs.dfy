/** Runs of a deterministic machine: iteration of its step, and the states a run passes through. */
module Runs {
  function Iterate<S>(step: S -> S, x: S, n: nat): (r: S) {
    if n == 0 then x else Iterate(step, step(x), n - 1)
  }

  predicate Linked<S(==)>(step: S -> S, xs: seq<S>, i: nat)
    requires 0 < i < |xs|
  {
    xs[i] == step(xs[i - 1])
  }

  /** Each state is one step from the one before. */
  predicate Chain<S(==)>(step: S -> S, xs: seq<S>) {
    forall i :: 0 < i < |xs| ==> Linked(step, xs, i)
  }

  lemma ChainGrows<S>(step: S -> S, xs: seq<S>, y: S)
    requires xs != [] && Chain(step, xs) && y == step(xs[|xs| - 1])
    ensures Chain(step, xs + [y])
  {
    var ys := xs + [y];
    forall i | 0 < i < |ys|
      ensures Linked(step, ys, i)
    {
      if i < |xs| {
        assert Linked(step, xs, i);
      }
    }
  }

  /** A chain's last state is where iteration from any of its states leads. */
  lemma {:induction false} ChainIsRun<S>(step: S -> S, xs: seq<S>, i: nat)
    requires i < |xs| && Chain(step, xs)
    ensures Iterate(step, xs[i], |xs| - 1 - i) == xs[|xs| - 1]
    decreases |xs| - i
  {
    if i < |xs| - 1 {
      assert Linked(step, xs, i + 1);
      ChainIsRun(step, xs, i + 1);
    }
  }
}
