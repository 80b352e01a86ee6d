/** sched.c: the task table, the context switch and the round-robin loops, proved against the
    closed-form schedule and the isolated runs of the tasks. */
module Scheduler {
  import opened Words
  import opened Uart
  import opened Sched
  import opened Schedule
  import opened RoundRobin

  class Scheduler {
    const base: nat            // address of tasks[0]
    const trampoline: Word
    var bodies: seq<Body>      // tasks[i].fn; num_tasks is its length
    var ctx: seq<Regs>         // tasks[i].ctx
    var done: seq<bool>        // tasks[i].state == TASK_DONE
    var current: nat
    var schedCtx: Regs
    var regs: Regs             // the live callee-saved registers
    var mem: nat -> Byte       // the stacks' memory
    var trace: seq<nat>
    var output: string

    ghost predicate Valid()
      reads this
    {
      Consistent(View(), bodies) && |bodies| <= MAX_TASKS && StackTop(base, MAX_TASKS) < WORD_SIZE
    }

    ghost function View(): Machine
      reads this
    {
      Machine(mem, regs, schedCtx, ctx, done, trace, output)
    }

    constructor (base: nat, trampoline: Word, mem: nat -> Byte, regs: Regs)
      requires StackTop(base, MAX_TASKS) < WORD_SIZE
      ensures Valid() && bodies == [] && trace == [] && output == ""
      ensures this.base == base && this.trampoline == trampoline
    {
      this.base, this.trampoline, this.mem, this.regs := base, trampoline, mem, regs;
      bodies, ctx, done, current, schedCtx, trace, output := [], [], [], 0, seq(14, _ => 0), [], "";
    }

    /** uart_puts outside any task. */
    method Print(text: string)
      modifies `output
      ensures output == old(output) + Expand(text)
    {
      output := output + Expand(text);
    }

    /** A full table ignores the task; otherwise it is appended ready, with a context that
        enters the trampoline on its own aligned stack. */
    method TaskCreate(fn: Body)
      requires Valid()
      modifies `bodies, `ctx, `done
      ensures Valid()
      ensures old(|bodies|) >= 3 ==> View() == old(View()) && bodies == old(bodies)
      ensures old(|bodies|) < 3 ==>
                var n := old(|bodies|);
                && bodies == old(bodies) + [fn] && done == old(done) + [false] && ctx[..n] == old(ctx)
                && ctx[n][0] == trampoline && ctx[n][1] == (base + 4232 * n + 4208) / 16 * 16
                && ctx[n][1] == InitialSp(base, n)
                && forall k :: 2 <= k < 14 ==> ctx[n][k] == 0
    {
      var n := |bodies|;
      if n >= MAX_TASKS {
        return;
      }
      var c: Regs := seq(14, _ => 0);
      c := c[SP := InitialSp(base, n)];
      c := c[RA := trampoline];
      bodies, ctx, done := bodies + [fn], ctx + [c], done + [false];
    }

    /** swtch(&sched_ctx, &tasks[i].ctx), the task's stretch, and its swtch back. */
    method SwitchIn(i: nat)
      requires Valid() && i < |bodies|
      modifies `current, `schedCtx, `regs, `mem, `ctx, `done, `trace, `output
      ensures Valid() && View() == Dispatch(old(View()), i, bodies, base)
    {
      current := i;
      trace := trace + [i];
      // swtch: save the scheduler, restore the task
      schedCtx := regs;
      regs := ctx[i];
      // the task, on the live registers and its own stack
      var s := bodies[current](Local(regs, StackOf(mem, base, current)));
      regs, mem, output := s.next.regs, WithStack(mem, base, current, s.next.stack), output + s.output;
      if s.exits {
        done := done[current := true];
      }
      // swtch from sched_yield: save the task, restore the scheduler
      ctx := ctx[current := regs];
      regs := schedCtx;
    }

    /** One pass of the for loop. */
    method RunRound(remaining: int) returns (left: int)
      requires Valid()
      modifies `current, `schedCtx, `regs, `mem, `ctx, `done, `trace, `output
      ensures Valid() && (View(), left) == Pass(Table(bodies, base), old(View()), remaining, 0)
    {
      left := remaining;
      var i := 0;
      while i < |bodies|
        invariant 0 <= i <= |bodies|
        invariant Valid()
        invariant Pass(Table(bodies, base), View(), left, i) == Pass(Table(bodies, base), old(View()), remaining, 0)
      {
        TablePass(View(), left, i, bodies, base);
        if !done[i] {
          SwitchIn(i);
          if done[i] {
            left := left - 1;
          }
        }
        i := i + 1;
      }
    }

    /** The run is the closed-form schedule: every dispatch, every output, every register. At every
        loop head `remaining` counts the unfinished tasks, a finished task is skipped, and the
        loops end with all of them finished. */
    method SchedRun(ghost ks: seq<nat>)
      requires Valid() && Promises(View(), ks, bodies, base)
      modifies `current, `schedCtx, `regs, `mem, `ctx, `done, `trace, `output
      ensures Valid() && View() == RunTrace(old(View()), FullSchedule(ks), bodies, base)
      ensures AllDone(View())
    {
      ghost var m, b := View(), bodies;
      var remaining := |bodies|;
      ghost var r := 0;
      AtFirstRound(m, ks, b, base);
      while remaining > 0
        invariant Valid() && View() == RunTrace(m, Turns(ks, r, 0), b, base)
        invariant r <= RoundsNeeded(ks) && remaining == Active(ks, r, 0)
        decreases RoundsNeeded(ks) - r
      {
        ActiveUntilLastRound(ks, r);
        RoundAdvances(m, ks, b, base, r);
        remaining := RunRound(remaining);
        r := r + 1;
      }
      ActiveUntilLastRound(ks, r);
      ScheduleFinishesAll(m, ks, b, base);
    }
  }
}
