/**
 The cooperative scheduler. A task is a coroutine: from the moment it is switched in until it
 yields or returns it computes on the fourteen registers the switch restores and on its own
 stack. Two things are described here without the scheduler's loops: the order in which
 tasks with given numbers of yields are dispatched, and the machine one dispatch leads to.
 */
module Sched {
  import opened Words
  import opened Schedule
  import opened RoundRobin

  type Byte = bv8

  const MAX_TASKS: nat := 3
  const STACK_SIZE: nat := 4096

  /** ra, sp, s0, ..., s11 in the order of context_t. */
  type Regs = s: seq<Word> | |s| == 14 witness seq(14, _ => 0)

  type Stack = s: seq<Byte> | |s| == STACK_SIZE witness seq(STACK_SIZE, _ => 0)

  const RA: nat := 0
  const SP: nat := 1

  /** All a task can see between two switches. */
  datatype Local = Local(regs: Regs, stack: Stack)

  /** One stretch of a task: what it leaves behind, what it prints, whether its body returned. */
  datatype Stretch = Stretch(next: Local, output: string, exits: bool)

  type Body = Local -> Stretch

  // ---------- Where the stacks lie ----------

  /** The stack array of tasks[i] in a table at base. */
  function StackLow(base: nat, i: nat): (a: nat) {
    base + 4232 * i + 112
  }

  function StackTop(base: nat, i: nat): (a: nat) {
    StackLow(base, i) + STACK_SIZE
  }

  /** The stack pointer task_create stores. */
  function InitialSp(base: nat, i: nat): (sp: nat) {
    StackTop(base, i) - StackTop(base, i) % 16
  }

  /** The members of a task_t, in declaration order. */
  datatype Field = Ctx | StackBytes | Fn | Name | State

  /** Fourteen registers, the stack, two pointers and an int, on a 64-bit machine. */
  function Size(f: Field): (n: nat) {
    match f case Ctx => 14 * 8 case StackBytes => 4096 case Fn => 8 case Name => 8 case State => 4
  }

  function Rank(f: Field): (n: nat) {
    match f case Ctx => 0 case StackBytes => 1 case Fn => 2 case Name => 3 case State => 4
  }

  function Alignment(f: Field): (n: nat)
    ensures n > 0
  {
    match f case Ctx => 8 case StackBytes => 1 case Fn => 8 case Name => 8 case State => 4
  }

  function RoundUp(n: nat, a: nat): (r: nat)
    requires a > 0
  {
    (n + a - 1) / a * a
  }

  /** The C layout rule: each member at the next multiple of its alignment. */
  function Offset(f: Field): (n: nat)
    decreases Rank(f)
  {
    match f
    case Ctx => 0
    case StackBytes => RoundUp(Offset(Ctx) + Size(Ctx), Alignment(StackBytes))
    case Fn => RoundUp(Offset(StackBytes) + Size(StackBytes), Alignment(Fn))
    case Name => RoundUp(Offset(Fn) + Size(Fn), Alignment(Name))
    case State => RoundUp(Offset(Name) + Size(Name), Alignment(State))
  }

  /** The size of an element, padded to the strictest alignment of its members. */
  function ElementSize(): (n: nat)
    ensures n == 4232
  {
    LayoutNumbers();
    RoundUp(Offset(State) + Size(State), 8)
  }

  /** The first address of a member of tasks[i]. */
  function FieldAt(base: nat, i: nat, f: Field): (a: nat) {
    base + ElementSize() * i + Offset(f)
  }

  lemma LayoutNumbers()
    ensures Offset(Ctx) == 0 && Offset(StackBytes) == 112 && Offset(Fn) == 4208
    ensures Offset(Name) == 4216 && Offset(State) == 4224
  {
    assert Offset(StackBytes) == 112;
    assert Offset(Fn) == 4208;
    assert Offset(Name) == 4216;
  }

  /** The stack is the stack member of its own element, as the layout rule places it; for any base,
      no two members of the table share a byte, so no stack meets a context, a function pointer, a
      name or a state, its own task's or another's. */
  lemma StackIsItsField(base: nat, i: nat, j: nat, f: Field, g: Field)
    ensures StackLow(base, i) == FieldAt(base, i, StackBytes) && STACK_SIZE == Size(StackBytes)
    ensures (i, f) != (j, g) ==>
              || FieldAt(base, i, f) + Size(f) <= FieldAt(base, j, g)
              || FieldAt(base, j, g) + Size(g) <= FieldAt(base, i, f)
  {
    LayoutNumbers();
  }

  lemma StacksDisjoint(base: nat, i: nat, j: nat)
    requires i != j
    ensures StackTop(base, i) <= StackLow(base, j) || StackTop(base, j) <= StackLow(base, i)
  {
  }

  /** For any table base, the initial stack pointers are 16-aligned and every push below one
      stays inside its own stack, which no other task's stack overlaps. */
  lemma InitialSpInOwnStack(base: nat, i: nat, j: nat)
    ensures InitialSp(base, i) % 16 == 0
    ensures StackTop(base, i) - 16 < InitialSp(base, i) <= StackTop(base, i)
    ensures i != j ==> !(StackLow(base, j) < InitialSp(base, i) <= StackTop(base, j))
    ensures FieldAt(base, i, StackBytes) + 4096 - 16 < InitialSp(base, i) <= FieldAt(base, i, Fn)
  {
    LayoutNumbers();
    if i != j {
      StacksDisjoint(base, i, j);
    }
  }

  // ---------- The machine ----------

  datatype Machine = Machine(
    mem: nat -> Byte, regs: Regs, schedCtx: Regs,
    ctx: seq<Regs>, done: seq<bool>,
    trace: seq<nat>, output: string)

  function StackOf(mem: nat -> Byte, base: nat, i: nat): (s: Stack)
    ensures forall k :: 0 <= k < STACK_SIZE ==> s[k] == mem(StackLow(base, i) + k)
  {
    seq(STACK_SIZE, (k: nat) => mem(StackLow(base, i) + k))
  }

  function WithStack(mem: nat -> Byte, base: nat, i: nat, s: Stack): (r: nat -> Byte) {
    (a: nat) => if StackLow(base, i) <= a < StackTop(base, i) then s[a - StackLow(base, i)] else mem(a)
  }

  predicate Consistent(m: Machine, bodies: seq<Body>) {
    |m.ctx| == |bodies| && |m.done| == |bodies|
  }

  function LocalOf(m: Machine, base: nat, i: nat): (l: Local)
    requires i < |m.ctx|
  {
    Local(m.ctx[i], StackOf(m.mem, base, i))
  }

  /** swtch into task i, its stretch, and the swtch back that its yield or exit makes. */
  function Dispatch(m: Machine, i: nat, bodies: seq<Body>, base: nat): (r: Machine)
    requires Consistent(m, bodies) && i < |bodies|
    ensures Consistent(r, bodies)
  {
    var s := bodies[i](LocalOf(m, base, i));
    m.(schedCtx := m.regs,
       mem := WithStack(m.mem, base, i, s.next.stack),
       ctx := m.ctx[i := s.next.regs],
       done := m.done[i := m.done[i] || s.exits],
       trace := m.trace + [i],
       output := m.output + s.output)
  }

  /** The task table as something the round-robin loops can drive. */
  function Table(bodies: seq<Body>, base: nat): (y: System<Machine>) {
    System(|bodies|,
           (m: Machine, i: nat) => if Consistent(m, bodies) && i < |bodies| then Dispatch(m, i, bodies, base) else m,
           (m: Machine, i: nat) => i < |m.done| && m.done[i])
  }

  /** One iteration of the for loop over the table. */
  lemma TablePass(m: Machine, left: int, i: nat, bodies: seq<Body>, base: nat)
    requires Consistent(m, bodies) && i < |bodies|
    ensures var y, d := Table(bodies, base), Dispatch(m, i, bodies, base);
            Pass(y, m, left, i) == if m.done[i] then Pass(y, m, left, i + 1)
                                   else Pass(y, d, if d.done[i] then left - 1 else left, i + 1)
  {
  }

  /** The machine after the dispatches t. */
  function RunTrace(m: Machine, t: seq<nat>, bodies: seq<Body>, base: nat): (r: Machine) {
    Fold(Table(bodies, base), m, t)
  }

  lemma {:induction false} RunTraceConsistent(m: Machine, t: seq<nat>, bodies: seq<Body>, base: nat)
    requires Consistent(m, bodies)
    ensures Consistent(RunTrace(m, t, bodies, base), bodies)
    decreases |t|
  {
    if t != [] {
      RunTraceConsistent(m, t[..|t| - 1], bodies, base);
    }
  }

  lemma RunTraceLast(m: Machine, t: seq<nat>, bodies: seq<Body>, base: nat)
    requires Consistent(m, bodies) && IsTrace(t, |bodies|) && t != []
    ensures var before := RunTrace(m, t[..|t| - 1], bodies, base);
            Consistent(before, bodies) && RunTrace(m, t, bodies, base) == Dispatch(before, t[|t| - 1], bodies, base)
  {
    RunTraceConsistent(m, t[..|t| - 1], bodies, base);
  }

  // ---------- A task on its own ----------

  /** The task's state after j stretches run back to back. */
  function Alone(body: Body, l: Local, j: nat): (r: Local) {
    if j == 0 then l else body(Alone(body, l, j - 1)).next
  }

  /** Run alone, the task yields exactly k times before its body returns. */
  ghost predicate YieldsTimes(body: Body, l: Local, k: nat) {
    body(Alone(body, l, k)).exits && forall j: nat :: j < k ==> !body(Alone(body, l, j)).exits
  }

  /** The output an interleaving must produce if no task disturbs another. */
  function OutputsAlone(t: seq<nat>, m: Machine, bodies: seq<Body>, base: nat): (s: string)
    requires Consistent(m, bodies) && IsTrace(t, |bodies|)
    decreases |t|
  {
    if t == [] then ""
    else
      var before, i := t[..|t| - 1], t[|t| - 1];
      OutputsAlone(before, m, bodies, base) + bodies[i](Alone(bodies[i], LocalOf(m, base, i), Count(before, i))).output
  }

  // ---------- Isolation ----------

  /** Writing one task's stack leaves every other task's stack alone. */
  lemma StackAfter(mem: nat -> Byte, base: nat, i: nat, j: nat, s: Stack)
    ensures StackOf(WithStack(mem, base, i, s), base, j) == if i == j then s else StackOf(mem, base, j)
  {
    var after := WithStack(mem, base, i, s);
    if i != j {
      StacksDisjoint(base, i, j);
    }
    forall k | 0 <= k < STACK_SIZE
      ensures StackOf(after, base, j)[k] == if i == j then s[k] else StackOf(mem, base, j)[k]
    {
      var a := StackLow(base, j) + k;
      assert after(a) == if StackLow(base, i) <= a < StackTop(base, i) then s[a - StackLow(base, i)] else mem(a);
    }
    assert StackOf(after, base, j) == if i == j then s else StackOf(mem, base, j);
  }

  lemma DispatchIsolates(m: Machine, i: nat, j: nat, bodies: seq<Body>, base: nat)
    requires Consistent(m, bodies) && i < |bodies| && j < |bodies|
    ensures LocalOf(Dispatch(m, i, bodies, base), base, j)
         == if i == j then bodies[i](LocalOf(m, base, i)).next else LocalOf(m, base, j)
  {
    var s := bodies[i](LocalOf(m, base, i)).next.stack;
    StackAfter(m.mem, base, i, j, s);
  }

  /** Under any interleaving, each task is always in the state it reaches by running alone for
      as many stretches as it was given: the registers it saved and its stack come back. */
  lemma {:induction false} Isolation(m: Machine, t: seq<nat>, i: nat, bodies: seq<Body>, base: nat)
    requires Consistent(m, bodies) && IsTrace(t, |bodies|) && i < |bodies|
    ensures var r := RunTrace(m, t, bodies, base);
            && Consistent(r, bodies)
            && LocalOf(r, base, i) == Alone(bodies[i], LocalOf(m, base, i), Count(t, i))
    decreases |t|
  {
    RunTraceConsistent(m, t, bodies, base);
    if t != [] {
      var before, last := t[..|t| - 1], t[|t| - 1];
      CountLast(t, i);
      Isolation(m, before, i, bodies, base);
      DispatchIsolates(RunTrace(m, before, bodies, base), last, i, bodies, base);
    }
  }

  lemma {:induction false} InterleavedTrace(m: Machine, t: seq<nat>, bodies: seq<Body>, base: nat)
    requires Consistent(m, bodies) && IsTrace(t, |bodies|)
    ensures RunTrace(m, t, bodies, base).trace == m.trace + t && RunTrace(m, t, bodies, base).regs == m.regs
    decreases |t|
  {
    if t != [] {
      InterleavedTrace(m, t[..|t| - 1], bodies, base);
      RunTraceLast(m, t, bodies, base);
      Regroup(m.trace, t[..|t| - 1], [t[|t| - 1]]);
      assert t == t[..|t| - 1] + [t[|t| - 1]];
    }
  }

  lemma Regroup<T>(a: seq<T>, b: seq<T>, c: seq<T>)
    ensures a + b + c == a + (b + c)
  {
  }

  lemma {:induction false} InterleavedPrints(m: Machine, t: seq<nat>, bodies: seq<Body>, base: nat)
    requires Consistent(m, bodies) && IsTrace(t, |bodies|)
    ensures RunTrace(m, t, bodies, base).output == m.output + OutputsAlone(t, m, bodies, base)
    decreases |t|
  {
    if t != [] {
      var before, i := t[..|t| - 1], t[|t| - 1];
      InterleavedPrints(m, before, bodies, base);
      RunTraceLast(m, t, bodies, base);
      TurnOutput(m, before, i, bodies, base);
      var line := bodies[i](Alone(bodies[i], LocalOf(m, base, i), Count(before, i))).output;
      Regroup(m.output, OutputsAlone(before, m, bodies, base), line);
    }
  }

  /** The printed output of any interleaving is the tasks' own outputs in dispatch order, and the
      scheduler's registers survive every dispatch. */
  lemma {:induction false} InterleavedOutput(m: Machine, t: seq<nat>, bodies: seq<Body>, base: nat)
    requires Consistent(m, bodies) && IsTrace(t, |bodies|)
    ensures var r := RunTrace(m, t, bodies, base);
            && r.output == m.output + OutputsAlone(t, m, bodies, base)
            && r.trace == m.trace + t
            && r.regs == m.regs
  {
    InterleavedTrace(m, t, bodies, base);
    InterleavedPrints(m, t, bodies, base);
  }

  /** What a turn prints after any interleaving is what the task would print next on its own. */
  lemma TurnOutput(m: Machine, t: seq<nat>, i: nat, bodies: seq<Body>, base: nat)
    requires Consistent(m, bodies) && IsTrace(t, |bodies|) && i < |bodies|
    ensures var r := RunTrace(m, t, bodies, base);
            && Consistent(r, bodies)
            && Dispatch(r, i, bodies, base).output
               == r.output + bodies[i](Alone(bodies[i], LocalOf(m, base, i), Count(t, i))).output
  {
    Isolation(m, t, i, bodies, base);
  }

  /** A task is done exactly when it was dispatched once more than it yields. */
  lemma {:induction false} DoneAfter(m: Machine, t: seq<nat>, i: nat, k: nat, bodies: seq<Body>, base: nat)
    requires Consistent(m, bodies) && IsTrace(t, |bodies|) && i < |bodies|
    requires !m.done[i] && YieldsTimes(bodies[i], LocalOf(m, base, i), k)
    requires Count(t, i) <= k + 1
    ensures var r := RunTrace(m, t, bodies, base);
            i < |r.done| && (r.done[i] <==> Count(t, i) == k + 1)
    decreases |t|
  {
    RunTraceConsistent(m, t, bodies, base);
    if t != [] {
      var before, last := t[..|t| - 1], t[|t| - 1];
      CountLast(t, i);
      DoneAfter(m, before, i, k, bodies, base);
      if last == i {
        Isolation(m, before, i, bodies, base);
      }
    }
  }

  /** Task i is ready and, run alone, yields ks[i] times before it returns. */
  ghost predicate Promise(m: Machine, ks: seq<nat>, i: nat, bodies: seq<Body>, base: nat)
    requires Consistent(m, bodies) && i < |bodies| == |ks|
  {
    !m.done[i] && YieldsTimes(bodies[i], LocalOf(m, base, i), ks[i])
  }

  ghost predicate Promises(m: Machine, ks: seq<nat>, bodies: seq<Body>, base: nat) {
    && Consistent(m, bodies) && |ks| == |bodies|
    && forall i: nat | i < |ks| :: Promise(m, ks, i, bodies, base)
  }

  /** Tasks that keep their promises alone keep them under every interleaving. */
  lemma PromisesObey(m: Machine, ks: seq<nat>, bodies: seq<Body>, base: nat)
    requires Promises(m, ks, bodies, base)
    ensures Obeys(Table(bodies, base), m, ks)
  {
    var y := Table(bodies, base);
    forall t: seq<nat>, i: nat | IsTrace(t, y.size) && i < y.size && Count(t, i) <= ks[i] + 1
      ensures y.finished(Fold(y, m, t), i) <==> Count(t, i) == ks[i] + 1
    {
      assert Promise(m, ks, i, bodies, base);
      DoneAfter(m, t, i, ks[i], bodies, base);
    }
  }

  predicate AllDone(m: Machine) {
    forall i :: 0 <= i < |m.done| ==> m.done[i]
  }

  /** The first loop head. */
  lemma AtFirstRound(m: Machine, ks: seq<nat>, bodies: seq<Body>, base: nat)
    requires |ks| == |bodies|
    ensures RunTrace(m, Turns(ks, 0, 0), bodies, base) == m
    ensures Active(ks, 0, 0) == |bodies|
  {
    ActiveAll(ks);
  }

  /** One pass of the for loop, started at a loop head, ends at the next one. */
  lemma RoundAdvances(m: Machine, ks: seq<nat>, bodies: seq<Body>, base: nat, r: nat)
    requires Promises(m, ks, bodies, base)
    ensures Pass(Table(bodies, base), RunTrace(m, Turns(ks, r, 0), bodies, base), Active(ks, r, 0), 0)
         == (RunTrace(m, Turns(ks, r + 1, 0), bodies, base), Active(ks, r + 1, 0))
  {
    PromisesObey(m, ks, bodies, base);
    ObeysOnSchedule(Table(bodies, base), m, ks);
    PassIsRound(Table(bodies, base), m, ks, r, 0);
  }

  lemma ScheduleFinishesAll(m: Machine, ks: seq<nat>, bodies: seq<Body>, base: nat)
    requires Promises(m, ks, bodies, base)
    ensures AllDone(RunTrace(m, FullSchedule(ks), bodies, base))
  {
    var end := RunTrace(m, FullSchedule(ks), bodies, base);
    RunTraceConsistent(m, FullSchedule(ks), bodies, base);
    forall i | 0 <= i < |end.done|
      ensures end.done[i]
    {
      assert Promise(m, ks, i, bodies, base);
      TurnsPerTask(ks, i);
      DoneAfter(m, FullSchedule(ks), i, ks[i], bodies, base);
    }
  }

  /** A dispatch finishes no task but its own and unfinishes none. */
  lemma TableSteady(bodies: seq<Body>, base: nat)
    ensures Steady(Table(bodies, base))
  {
  }

  // ---------- When the run ends ----------

  lemma {:induction false} SomeFinished(y: System<Machine>, m: Machine, i: nat, upto: nat)
    requires i < upto && y.finished(m, i)
    ensures Finished(y, m, upto) > 0
    decreases upto
  {
    if i < upto - 1 {
      SomeFinished(y, m, i, upto - 1);
    }
  }

  /** Of tasks that are DONE or yield finitely often, the loops of sched_run end if and only if
      none is DONE on entry. */
  lemma EndsIffAllReady(m: Machine, ks: seq<nat>, bodies: seq<Body>, base: nat)
    requires Consistent(m, bodies) && |ks| == |bodies|
    requires forall i: nat :: i < |bodies| ==> m.done[i] || YieldsTimes(bodies[i], LocalOf(m, base, i), ks[i])
    ensures (exists n: nat :: Passes(Table(bodies, base), m, n).1 <= 0)
       <==> forall i: nat :: i < |bodies| ==> !m.done[i]
  {
    if i: nat :| i < |bodies| && m.done[i] {
      forall n: nat
        ensures Passes(Table(bodies, base), m, n).1 > 0
      {
        NeverEnds(m, i, bodies, base, n);
      }
    } else {
      assert Promises(m, ks, bodies, base);
      PromisesObey(m, ks, bodies, base);
      PassesAreRounds(Table(bodies, base), m, ks, RoundsNeeded(ks));
    }
  }

  /** A task that is DONE on entry keeps `remaining` positive for ever, whatever the bodies do. */
  lemma NeverEnds(m: Machine, i: nat, bodies: seq<Body>, base: nat, n: nat)
    requires Consistent(m, bodies) && i < |bodies| && m.done[i]
    ensures Passes(Table(bodies, base), m, n).1 > 0
  {
    TableSteady(bodies, base);
    SomeFinished(Table(bodies, base), m, i, |bodies|);
    GuardNeedsAllReady(Table(bodies, base), m, n);
  }

  /** So a second sched_run over the machine the first one leaves never ends. */
  lemma SecondRunNeverEnds(m: Machine, ks: seq<nat>, bodies: seq<Body>, base: nat, n: nat)
    requires Promises(m, ks, bodies, base) && bodies != []
    ensures Passes(Table(bodies, base), RunTrace(m, FullSchedule(ks), bodies, base), n).1 > 0
  {
    var end := RunTrace(m, FullSchedule(ks), bodies, base);
    RunTraceConsistent(m, FullSchedule(ks), bodies, base);
    ScheduleFinishesAll(m, ks, bodies, base);
    NeverEnds(end, 0, bodies, base, n);
  }
}
