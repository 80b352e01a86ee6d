/** main.c: the three tasks registered and run by the scheduler. */
module Demo {
  import opened Words
  import opened Uart
  import opened Schedule
  import opened Sched
  import opened Scheduler
  import opened Tasks

  lemma DemoRounds(n: nat)
    ensures RoundsNeeded([n, n, n]) == n + 1
  {
    assert [n, n, n][0] == n;
  }

  /** From any registered machine, the whole schedule prints the rounds' lines. */
  lemma DemoPrints(m: Machine, n: Word, c: Code, base: nat)
    requires n + 1 < WORD_SIZE && Registered(m, Workloads(n), c)
    ensures RunTrace(m, FullSchedule([n, n, n]), LoopBodies(Workloads(n), c), base).output
         == m.output + RoundsOutput(Workloads(n), n + 1, 0)
  {
    var ts := Workloads(n);
    WorkloadsCount(n);
    DemoRounds(n);
    ScheduledOutput(m, ts, c, base, n + 1, 0);
    InterleavedOutput(m, FullSchedule([n, n, n]), LoopBodies(ts, c), base);
  }

  /** The three tasks registered and run, after whatever main has printed so far. */
  method RunTasks(s: Scheduler, c: Code, n: Word, starting: string)
    requires n + 1 < WORD_SIZE && c.resume != c.trampoline
    requires s.Valid() && s.bodies == [] && s.trace == [] && s.trampoline == c.trampoline
    modifies s
    ensures s.output == old(s.output) + Expand(starting) + RoundsOutput(Workloads(n), n + 1, 0)
    ensures s.trace == FullSchedule([n, n, n]) && AllDone(s.View())
  {
    s.TaskCreate(LoopBody(Heartbeat(n), c));
    s.TaskCreate(LoopBody(Fibonacci(n), c));
    s.TaskCreate(LoopBody(Spinner(n), c));
    s.Print(starting);
    ghost var m, ts := s.View(), Workloads(n);
    assert s.bodies == LoopBodies(ts, c);
    WorkloadsCount(n);
    RegisteredPromises(m, ts, c, s.base);
    s.SchedRun([n, n, n]);
    DemoPrints(m, n, c, s.base);
    InterleavedOutput(m, FullSchedule([n, n, n]), LoopBodies(ts, c), s.base);
  }

  /** The four lines main starts with. */
  method PrintBanner(s: Scheduler)
    requires s.output == ""
    modifies s`output
    ensures s.output == Expand("\n========================================\n")
                        + Expand("riscv-baremetal-demo: QEMU virt (rv64imac)\n")
                        + Expand("UART driver + cooperative round-robin scheduler\n")
                        + Expand("========================================\n\n")
  {
    s.Print("\n========================================\n");
    s.Print("riscv-baremetal-demo: QEMU virt (rv64imac)\n");
    s.Print("UART driver + cooperative round-robin scheduler\n");
    s.Print("========================================\n\n");
  }

  /** The whole program's output and schedule, for any number of iterations (the source has 5), any
      table base and any memory contents. */
  method RunDemo(base: nat, c: Code, mem: nat -> Byte, regs: Regs, n: Word) returns (s: Scheduler)
    requires n + 1 < WORD_SIZE && c.resume != c.trampoline && StackTop(base, MAX_TASKS) < WORD_SIZE
    ensures s.output == Expand("\n========================================\n")
                        + Expand("riscv-baremetal-demo: QEMU virt (rv64imac)\n")
                        + Expand("UART driver + cooperative round-robin scheduler\n")
                        + Expand("========================================\n\n")
                        + Expand("scheduler: starting 3 tasks...\n\n")
                        + RoundsOutput(Workloads(n), n + 1, 0)
                        + Expand("\nscheduler: all tasks finished. halting.\n")
    ensures s.trace == FullSchedule([n, n, n]) && AllDone(s.View())
  {
    s := new Scheduler(base, c.trampoline, mem, regs);
    PrintBanner(s);
    RunTasks(s, c, n, "scheduler: starting 3 tasks...\n\n");
    s.Print("\nscheduler: all tasks finished. halting.\n");
  }
}
