/** The order in which the round-robin loop dispatches tasks that yield given numbers of
    times, in closed form, and what follows for each task's turns. */
module Schedule {
  import opened Words

  predicate IsTrace(t: seq<nat>, n: nat) {
    forall p :: 0 <= p < |t| ==> t[p] < n
  }

  /** Turns task i has in t. */
  function Count(t: seq<nat>, i: nat): (n: nat) {
    multiset(t)[i]
  }

  lemma CountAppend(t: seq<nat>, x: nat, i: nat)
    ensures Count(t + [x], i) == Count(t, i) + if x == i then 1 else 0
  {
  }

  lemma CountLast(t: seq<nat>, i: nat)
    requires t != []
    ensures Count(t, i) == Count(t[..|t| - 1], i) + if t[|t| - 1] == i then 1 else 0
  {
    CountAppend(t[..|t| - 1], t[|t| - 1], i);
    assert t == t[..|t| - 1] + [t[|t| - 1]];
  }

  /** The turns of rounds 0 to r - 1 and of the tasks below index i in round r, when task j has
      a turn in every round up to number ks[j]. */
  function Turns(ks: seq<nat>, r: nat, i: nat): (t: seq<nat>)
    requires i <= |ks|
    ensures IsTrace(t, |ks|)
    decreases r, i
  {
    if i > 0 then
      if ks[i - 1] >= r then Turns(ks, r, i - 1) + [i - 1] else Turns(ks, r, i - 1)
    else if r > 0 then Turns(ks, r - 1, |ks|)
    else []
  }

  /** The tasks with a turn in round r, in table order. */
  function Round(ks: seq<nat>, r: nat, i: nat): (t: seq<nat>)
    requires i <= |ks|
  {
    if i == 0 then []
    else if ks[i - 1] >= r then Round(ks, r, i - 1) + [i - 1]
    else Round(ks, r, i - 1)
  }

  /** One more than the largest number of yields; 0 with no tasks. */
  function RoundsNeeded(ks: seq<nat>): (n: nat)
    ensures forall i :: 0 <= i < |ks| ==> ks[i] < n
    ensures n > 0 ==> exists i :: 0 <= i < |ks| && ks[i] == n - 1
  {
    if ks == [] then 0
    else
      var n := RoundsNeeded(ks[..|ks| - 1]);
      if ks[|ks| - 1] < n then n else ks[|ks| - 1] + 1
  }

  /** Every round there is a turn in. */
  function FullSchedule(ks: seq<nat>): (t: seq<nat>)
    ensures IsTrace(t, |ks|)
  {
    Turns(ks, RoundsNeeded(ks), 0)
  }

  /** The turns are the concatenation of the rounds. */
  lemma {:induction false} TurnsAreRounds(ks: seq<nat>, r: nat, i: nat)
    requires i <= |ks|
    ensures Turns(ks, r, i) == Turns(ks, r, 0) + Round(ks, r, i)
    decreases i
  {
    if i > 0 {
      TurnsAreRounds(ks, r, i - 1);
    }
  }

  /** Rounds 0 to n - 1, one after the other. */
  function Rounds(ks: seq<nat>, n: nat): (t: seq<nat>) {
    if n == 0 then [] else Rounds(ks, n - 1) + Round(ks, n - 1, |ks|)
  }

  lemma {:induction false} TurnsAreAllRounds(ks: seq<nat>, n: nat)
    ensures Turns(ks, n, 0) == Rounds(ks, n)
    decreases n
  {
    if n > 0 {
      TurnsAreAllRounds(ks, n - 1);
      TurnsAreRounds(ks, n - 1, |ks|);
    }
  }

  /** What a round is: the tasks with at least r yields, each once, in table order. */
  lemma {:induction false} RoundExact(ks: seq<nat>, r: nat, i: nat)
    requires i <= |ks|
    ensures var t := Round(ks, r, i);
            && (forall x :: x in t <==> 0 <= x < i && ks[x] >= r)
            && (forall p, q :: 0 <= p < q < |t| ==> t[p] < t[q])
  {
    if i > 0 {
      RoundExact(ks, r, i - 1);
      var before := Round(ks, r, i - 1);
      assert forall p :: 0 <= p < |before| ==> before[p] in before;
      assert forall x :: x in before + [i - 1] <==> x in before || x == i - 1;
    }
  }

  /** The whole schedule is the concatenation of its rounds, and no round after them has a turn. */
  lemma FullScheduleIsRounds(ks: seq<nat>, r: nat)
    ensures FullSchedule(ks) == Rounds(ks, RoundsNeeded(ks))
    ensures Round(ks, r, |ks|) == [] <==> r >= RoundsNeeded(ks)
  {
    TurnsAreAllRounds(ks, RoundsNeeded(ks));
    RoundExact(ks, r, |ks|);
    var t := Round(ks, r, |ks|);
    if t != [] {
      assert t[0] in t;
    }
  }

  /** Turns given to task j by the time round r has reached index i. */
  lemma {:induction false} CountTurns(ks: seq<nat>, r: nat, i: nat, j: nat)
    requires i <= |ks| && j < |ks|
    ensures Count(Turns(ks, r, i), j) == Min(if j < i then r + 1 else r, ks[j] + 1)
    decreases r, i
  {
    if i > 0 {
      CountTurns(ks, r, i - 1, j);
      CountAppend(Turns(ks, r, i - 1), i - 1, j);
    } else if r > 0 {
      CountTurns(ks, r - 1, |ks|, j);
    }
  }

  /** Every task gets exactly one turn more than it yields. */
  lemma TurnsPerTask(ks: seq<nat>, i: nat)
    requires i < |ks|
    ensures Count(FullSchedule(ks), i) == ks[i] + 1
  {
    CountTurns(ks, RoundsNeeded(ks), 0, i);
  }

  // ---------- Fairness ----------

  /** A turn of task x comes in some round q, right after the turns of the tasks below x. */
  lemma {:induction false} TurnAt(ks: seq<nat>, r: nat, i: nat, p: nat, x: nat) returns (q: nat)
    requires i <= |ks| && p < |Turns(ks, r, i)| && Turns(ks, r, i)[p] == x
    ensures x < |ks| && q <= ks[x] && Turns(ks, r, i)[..p] == Turns(ks, q, x)
    decreases r, i
  {
    if i > 0 {
      var before := Turns(ks, r, i - 1);
      if p < |before| {
        q := TurnAt(ks, r, i - 1, p, x);
        assert (before + [i - 1])[..p] == before[..p];
      } else {
        q := r;
        assert (before + [i - 1])[..p] == before;
      }
    } else {
      q := TurnAt(ks, r - 1, |ks|, p, x);
    }
  }

  lemma CountBetween(t: seq<nat>, p: nat, q: nat, j: nat)
    requires p < q < |t|
    ensures Count(t[..q], j) == Count(t[..p], j) + (if t[p] == j then 1 else 0) + Count(t[p + 1..q], j)
  {
    assert t[..q] == t[..p] + [t[p]] + t[p + 1..q];
  }

  /** Between two consecutive turns of one task every other task has at most one. */
  lemma AtMostOneTurnBetween(ks: seq<nat>, p: nat, q: nat, i: nat, j: nat)
    requires p < q < |FullSchedule(ks)| && i < |ks| && j < |ks|
    requires FullSchedule(ks)[p] == i && FullSchedule(ks)[q] == i && i !in FullSchedule(ks)[p + 1..q]
    ensures Count(FullSchedule(ks)[p + 1..q], j) <= 1
  {
    var n := RoundsNeeded(ks);
    var rp := TurnAt(ks, n, 0, p, i);
    var rq := TurnAt(ks, n, 0, q, i);
    CountTurns(ks, rp, i, i);
    CountTurns(ks, rq, i, i);
    CountTurns(ks, rp, i, j);
    CountTurns(ks, rq, i, j);
    CountBetween(FullSchedule(ks), p, q, i);
    CountBetween(FullSchedule(ks), p, q, j);
  }
}
