/**
 The round-robin loops over any system that can be stepped at an index and says which indices
 are finished: what the nested loops compute, and that on a system whose task i finishes at
 its (ks[i] + 1)-st turn they compute the closed-form schedule.
 */
module RoundRobin {
  import opened Schedule

  datatype System<!S> = System(size: nat, step: (S, nat) -> S, finished: (S, nat) -> bool)

  /** The state after the turns t. */
  function Fold<S>(y: System<S>, s: S, t: seq<nat>): (r: S) {
    if t == [] then s else y.step(Fold(y, s, t[..|t| - 1]), t[|t| - 1])
  }

  /** Task i finishes exactly at its (ks[i] + 1)-st turn, whatever the interleaving. */
  ghost predicate Obeys<S(!new)>(y: System<S>, s: S, ks: seq<nat>) {
    && |ks| == y.size
    && forall t: seq<nat>, i: nat | IsTrace(t, y.size) && i < y.size && Count(t, i) <= ks[i] + 1 ::
         y.finished(Fold(y, s, t), i) <==> Count(t, i) == ks[i] + 1
  }

  // ---------- The loops ----------

  /** The for loop from index i on, with its `remaining` counter. */
  function Pass<S>(y: System<S>, s: S, remaining: int, i: nat): (r: (S, int))
    requires i <= y.size
    decreases y.size - i
  {
    if i == y.size then (s, remaining)
    else if y.finished(s, i) then Pass(y, s, remaining, i + 1)
    else
      var d := y.step(s, i);
      Pass(y, d, if y.finished(d, i) then remaining - 1 else remaining, i + 1)
  }

  /** The while loop after n iterations, whatever its guard says. */
  function Passes<S>(y: System<S>, s: S, n: nat): (r: (S, int)) {
    if n == 0 then (s, y.size)
    else
      var before := Passes(y, s, n - 1);
      Pass(y, before.0, before.1, 0)
  }

  // ---------- They are the schedule ----------

  /** Tasks still to finish when round r has reached index i, by their numbers of yields. */
  function Active(ks: seq<nat>, r: nat, i: nat): (n: nat)
    ensures n <= |ks|
  {
    if ks == [] then 0
    else
      var j := |ks| - 1;
      Active(ks[..j], r, i) + if (if j < i then ks[j] > r else ks[j] >= r) then 1 else 0
  }

  lemma {:induction false} ActiveNext(ks: seq<nat>, r: nat, i: nat)
    ensures Active(ks, r, i + 1) == Active(ks, r, i) - if i < |ks| && ks[i] == r then 1 else 0
    decreases |ks|
  {
    if ks != [] {
      ActiveNext(ks[..|ks| - 1], r, i);
    }
  }

  lemma {:induction false} ActiveWrap(ks: seq<nat>, r: nat, i: nat)
    requires i >= |ks|
    ensures Active(ks, r, i) == Active(ks, r + 1, 0)
    decreases |ks|
  {
    if ks != [] {
      ActiveWrap(ks[..|ks| - 1], r, i);
    }
  }

  lemma {:induction false} ActiveZero(ks: seq<nat>, r: nat)
    ensures Active(ks, r, 0) == 0 <==> forall j :: 0 <= j < |ks| ==> ks[j] < r
    decreases |ks|
  {
    if ks != [] {
      var n := |ks| - 1;
      ActiveZero(ks[..n], r);
      assert forall j :: 0 <= j < n ==> ks[..n][j] == ks[j];
    }
  }

  lemma ActiveUntilLastRound(ks: seq<nat>, r: nat)
    ensures Active(ks, r, 0) == 0 <==> RoundsNeeded(ks) <= r
  {
    ActiveZero(ks, r);
  }

  lemma {:induction false} ActiveAll(ks: seq<nat>)
    ensures Active(ks, 0, 0) == |ks|
    decreases |ks|
  {
    if ks != [] {
      ActiveAll(ks[..|ks| - 1]);
    }
  }

  lemma FoldLast<S>(y: System<S>, s: S, t: seq<nat>, i: nat)
    ensures Fold(y, s, t + [i]) == y.step(Fold(y, s, t), i)
  {
    assert (t + [i])[..|t|] == t;
  }

  /** What the loops may rely on when round r has reached index i. */
  ghost predicate FinishedAt<S>(y: System<S>, s: S, ks: seq<nat>, r: nat, i: nat, j: nat)
    requires i <= |ks| && j < |ks|
  {
    y.finished(Fold(y, s, Turns(ks, r, i)), j) <==> if j < i then ks[j] <= r else ks[j] < r
  }

  ghost predicate OnSchedule<S>(y: System<S>, s: S, ks: seq<nat>) {
    && |ks| == y.size
    && forall r: nat, i: nat, j: nat | i <= |ks| && j < |ks| :: FinishedAt(y, s, ks, r, i, j)
  }

  lemma ObeysOnSchedule<S(!new)>(y: System<S>, s: S, ks: seq<nat>)
    requires Obeys(y, s, ks)
    ensures OnSchedule(y, s, ks)
  {
    forall r: nat, i: nat, j: nat | i <= |ks| && j < |ks|
      ensures FinishedAt(y, s, ks, r, i, j)
    {
      CountTurns(ks, r, i, j);
    }
  }

  /** From index i of round r on, the for loop runs the rest of the round. */
  lemma {:induction false} PassIsRound<S>(y: System<S>, s: S, ks: seq<nat>, r: nat, i: nat)
    requires OnSchedule(y, s, ks) && i <= |ks|
    ensures Pass(y, Fold(y, s, Turns(ks, r, i)), Active(ks, r, i), i)
         == (Fold(y, s, Turns(ks, r + 1, 0)), Active(ks, r + 1, 0))
    decreases |ks| - i
  {
    if i == |ks| {
      ActiveWrap(ks, r, i);
    } else {
      assert FinishedAt(y, s, ks, r, i, i);
      FoldLast(y, s, Turns(ks, r, i), i);
      assert FinishedAt(y, s, ks, r, i + 1, i);
      ActiveNext(ks, r, i);
      PassIsRound(y, s, ks, r, i + 1);
    }
  }

  /** Each iteration of the while loop is one round of the schedule, and the counter is the
      number of tasks still to finish: positive exactly until the last round is over. */
  lemma {:induction false} PassesAreRounds<S(!new)>(y: System<S>, s: S, ks: seq<nat>, n: nat)
    requires Obeys(y, s, ks)
    ensures Passes(y, s, n) == (Fold(y, s, Turns(ks, n, 0)), Active(ks, n, 0))
    ensures Passes(y, s, n).1 > 0 <==> n < RoundsNeeded(ks)
    decreases n
  {
    ActiveUntilLastRound(ks, n);
    if n == 0 {
      ActiveAll(ks);
    } else {
      PassesAreRounds(y, s, ks, n - 1);
      ObeysOnSchedule(y, s, ks);
      PassIsRound(y, s, ks, n - 1, 0);
    }
  }

  // ---------- Entering the loop with a finished task ----------

  /** Finished tasks below index `upto`. */
  function Finished<S>(y: System<S>, s: S, upto: nat): (n: nat)
    ensures n <= upto
  {
    if upto == 0 then 0 else Finished(y, s, upto - 1) + if y.finished(s, upto - 1) then 1 else 0
  }

  /** A turn changes only whether its own task is finished, and never unfinishes it. */
  ghost predicate Steady<S(!new)>(y: System<S>) {
    forall s: S, i: nat, j: nat | i < y.size && j < y.size ::
      i != j || y.finished(s, j) ==> y.finished(y.step(s, i), j) == y.finished(s, j)
  }

  lemma {:induction false} FinishedStep<S(!new)>(y: System<S>, s: S, i: nat, upto: nat)
    requires Steady(y) && i < y.size && upto <= y.size && !y.finished(s, i)
    ensures Finished(y, y.step(s, i), upto)
         == Finished(y, s, upto) + if i < upto && y.finished(y.step(s, i), i) then 1 else 0
    decreases upto
  {
    if upto > 0 {
      FinishedStep(y, s, i, upto - 1);
    }
  }

  lemma {:induction false} PassBalance<S(!new)>(y: System<S>, s: S, remaining: int, i: nat)
    requires Steady(y) && i <= y.size
    ensures var r := Pass(y, s, remaining, i);
            r.1 + Finished(y, r.0, y.size) == remaining + Finished(y, s, y.size)
    decreases y.size - i
  {
    if i < y.size {
      if y.finished(s, i) {
        PassBalance(y, s, remaining, i + 1);
      } else {
        var d := y.step(s, i);
        FinishedStep(y, s, i, y.size);
        PassBalance(y, d, if y.finished(d, i) then remaining - 1 else remaining, i + 1);
      }
    }
  }

  /** For any number of iterations, the counter is the number of unfinished tasks plus the number
      that were finished on entry: the guard can only become false if every task was ready
      on entry, so running the loops a second time never ends. */
  lemma {:induction false} GuardNeedsAllReady<S(!new)>(y: System<S>, s: S, n: nat)
    requires Steady(y)
    ensures var r := Passes(y, s, n);
            && r.1 == (y.size - Finished(y, r.0, y.size)) + Finished(y, s, y.size)
            && (Finished(y, s, y.size) > 0 ==> r.1 > 0)
    decreases n
  {
    if n > 0 {
      GuardNeedsAllReady(y, s, n - 1);
      var before := Passes(y, s, n - 1);
      PassBalance(y, before.0, before.1, 0);
    }
  }
}
