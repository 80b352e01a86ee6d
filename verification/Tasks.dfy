/**
 tasks.c: the three demo workloads as coroutines, for any number of iterations. A task keeps its
 locals in the callee-saved registers s0, s1 and s2 across a yield; it is on its first stretch
 exactly when it is entered through the trampoline.
 */
module Tasks {
  import opened Words
  import opened Numerals
  import opened Uart
  import opened Schedule
  import opened Sched

  datatype Locals = Locals(i: Word, a: Word, b: Word)

  /** Where the trampoline and the return from sched_yield inside the bodies are. */
  datatype Code = Code(trampoline: Word, resume: Word)

  /** A counting loop that prints a line and yields in every iteration. */
  datatype Loop = Loop(first: Locals, end: Word, line: Locals -> string, work: Locals -> Locals)

  function LocalsOf(r: Regs): (v: Locals) {
    Locals(r[2], r[3], r[4])
  }

  function Resume(v: Locals): (r: Locals) {
    v.(i := Add(v.i, 1))
  }

  function Saved(r: Regs, v: Locals, c: Code): (s: Regs) {
    r[RA := c.resume][2 := v.i][3 := v.a][4 := v.b]
  }

  /** The locals at the loop test this stretch begins with. */
  function EntryLocals(t: Loop, c: Code, l: Local): (v: Locals) {
    if l.regs[RA] == c.trampoline then t.first else Resume(LocalsOf(l.regs))
  }

  /** One stretch: up to the next yield, or out of the loop. */
  function LoopStretch(t: Loop, c: Code, l: Local): (s: Stretch) {
    var v := EntryLocals(t, c, l);
    if v.i < t.end
    then Stretch(Local(Saved(l.regs, t.work(v), c), l.stack), Expand(t.line(v)), false)
    else Stretch(Local(Saved(l.regs, v, c), l.stack), "", true)
  }

  function LoopBody(t: Loop, c: Code): (b: Body) {
    (l: Local) => LoopStretch(t, c, l)
  }

  /** The locals at the loop test of iteration j, in a run nobody interrupts. */
  function Iteration(t: Loop, j: nat): (v: Locals) {
    if j == 0 then t.first else Resume(t.work(Iteration(t, j - 1)))
  }

  /** The work leaves the loop counter alone, and the counter cannot wrap before the loop ends. */
  ghost predicate Counts(t: Loop) {
    t.first.i <= t.end && forall v :: t.work(v).i == v.i
  }

  lemma {:induction false} CounterAt(t: Loop, j: nat)
    requires Counts(t) && t.first.i + j <= t.end
    ensures Iteration(t, j).i == t.first.i + j
    decreases j
  {
    if j > 0 {
      CounterAt(t, j - 1);
    }
  }

  lemma NextEntry(t: Loop, c: Code, l: Local)
    requires c.resume != c.trampoline && EntryLocals(t, c, l).i < t.end
    ensures EntryLocals(t, c, LoopStretch(t, c, l).next) == Resume(t.work(EntryLocals(t, c, l)))
  {
    var s := LoopStretch(t, c, l);
    assert s.next.regs[RA] == c.resume;
  }

  /** Alone and resumed after each yield, the task runs the iterations of its loop. */
  lemma {:induction false} EntryAt(t: Loop, c: Code, l: Local, j: nat)
    requires Counts(t) && c.resume != c.trampoline && l.regs[RA] == c.trampoline && t.first.i + j <= t.end
    ensures EntryLocals(t, c, Alone(LoopBody(t, c), l, j)) == Iteration(t, j)
    decreases j
  {
    if j > 0 {
      EntryAt(t, c, l, j - 1);
      CounterAt(t, j - 1);
      NextEntry(t, c, Alone(LoopBody(t, c), l, j - 1));
    }
  }

  lemma StretchIsIteration(t: Loop, c: Code, l: Local, j: nat)
    requires Counts(t) && c.resume != c.trampoline && l.regs[RA] == c.trampoline && t.first.i + j <= t.end
    ensures var s := LoopBody(t, c)(Alone(LoopBody(t, c), l, j));
            && (s.exits <==> t.first.i + j == t.end)
            && s.output == (if t.first.i + j < t.end then Expand(t.line(Iteration(t, j))) else "")
  {
    EntryAt(t, c, l, j);
    CounterAt(t, j);
  }

  lemma LoopYields(t: Loop, c: Code, l: Local)
    requires Counts(t) && c.resume != c.trampoline && l.regs[RA] == c.trampoline
    ensures YieldsTimes(LoopBody(t, c), l, t.end - t.first.i)
  {
    var k := t.end - t.first.i;
    StretchIsIteration(t, c, l, k);
    forall j: nat | j < k
      ensures !LoopBody(t, c)(Alone(LoopBody(t, c), l, j)).exits
    {
      StretchIsIteration(t, c, l, j);
    }
  }

  // ---------- Any table of such tasks ----------

  /** What stretch r prints. */
  function LoopLine(t: Loop, r: nat): (s: string) {
    if t.first.i + r < t.end then Expand(t.line(Iteration(t, r))) else ""
  }

  function LoopBodies(ts: seq<Loop>, c: Code): (b: seq<Body>) {
    seq(|ts|, (k: nat) requires k < |ts| => LoopBody(ts[k], c))
  }

  /** Iterations left to a loop is its number of yields. */
  function Yields(ts: seq<Loop>): (ks: seq<nat>)
    requires forall k :: 0 <= k < |ts| ==> ts[k].first.i <= ts[k].end
  {
    seq(|ts|, (k: nat) requires k < |ts| => ts[k].end - ts[k].first.i)
  }

  /** Everything printed by the time round r has reached task k. */
  function RoundsOutput(ts: seq<Loop>, r: nat, k: nat): (s: string)
    requires k <= |ts|
    decreases r, k
  {
    if k > 0 then RoundsOutput(ts, r, k - 1) + LoopLine(ts[k - 1], r)
    else if r > 0 then RoundsOutput(ts, r - 1, |ts|)
    else ""
  }

  ghost predicate AllCount(ts: seq<Loop>) {
    forall k :: 0 <= k < |ts| ==> Counts(ts[k])
  }

  /** Every task is ready and enters through the trampoline. */
  ghost predicate Registered(m: Machine, ts: seq<Loop>, c: Code) {
    && Consistent(m, LoopBodies(ts, c))
    && c.resume != c.trampoline
    && forall k :: 0 <= k < |ts| ==> !m.done[k] && m.ctx[k][RA] == c.trampoline
  }

  lemma RegisteredPromises(m: Machine, ts: seq<Loop>, c: Code, base: nat)
    requires AllCount(ts) && Registered(m, ts, c)
    ensures Promises(m, Yields(ts), LoopBodies(ts, c), base)
  {
    forall k: nat | k < |ts|
      ensures Promise(m, Yields(ts), k, LoopBodies(ts, c), base)
    {
      LoopYields(ts[k], c, LocalOf(m, base, k));
    }
  }

  lemma OutputsAloneLast(t: seq<nat>, x: nat, m: Machine, bodies: seq<Body>, base: nat)
    requires Consistent(m, bodies) && IsTrace(t, |bodies|) && x < |bodies|
    ensures IsTrace(t + [x], |bodies|)
    ensures OutputsAlone(t + [x], m, bodies, base)
         == OutputsAlone(t, m, bodies, base) + bodies[x](Alone(bodies[x], LocalOf(m, base, x), Count(t, x))).output
  {
    assert (t + [x])[..|t|] == t;
  }

  /** A turn of task x in round r prints its line of that round. */
  lemma ScheduledTurn(m: Machine, ts: seq<Loop>, c: Code, base: nat, r: nat, x: nat)
    requires AllCount(ts) && Registered(m, ts, c) && x < |ts| && Yields(ts)[x] >= r
    ensures OutputsAlone(Turns(Yields(ts), r, x + 1), m, LoopBodies(ts, c), base)
         == OutputsAlone(Turns(Yields(ts), r, x), m, LoopBodies(ts, c), base) + LoopLine(ts[x], r)
  {
    var ks := Yields(ts);
    CountTurns(ks, r, x, x);
    OutputsAloneLast(Turns(ks, r, x), x, m, LoopBodies(ts, c), base);
    StretchIsIteration(ts[x], c, LocalOf(m, base, x), r);
  }

  /** The scheduled interleaving prints the tasks' lines in turn, round after round. */
  lemma {:induction false} ScheduledOutput(m: Machine, ts: seq<Loop>, c: Code, base: nat, r: nat, k: nat)
    requires AllCount(ts) && Registered(m, ts, c) && k <= |ts|
    ensures OutputsAlone(Turns(Yields(ts), r, k), m, LoopBodies(ts, c), base) == RoundsOutput(ts, r, k)
    decreases r, k
  {
    if k > 0 {
      var x := k - 1;
      ScheduledOutput(m, ts, c, base, r, x);
      if Yields(ts)[x] >= r {
        ScheduledTurn(m, ts, c, base, r, x);
      } else {
        assert LoopLine(ts[x], r) == "";
      }
    } else if r > 0 {
      ScheduledOutput(m, ts, c, base, r - 1, |ts|);
    }
  }

  // ---------- The three tasks ----------

  function HeartbeatLine(i: nat): (s: string) {
    "[heartbeat] tick " + Numeral(i, DECIMAL) + " (task 1 of 3)\n"
  }

  function FibonacciLine(i: nat, f: nat): (s: string) {
    "[fibonacci] fib(" + Numeral(i, DECIMAL) + ") = " + Numeral(f, DECIMAL) + " (task 2 of 3)\n"
  }

  function SpinnerLine(i: nat): (s: string) {
    "[spinner] working " + ["|/-\\"[i % 4]] + " (task 3 of 3)\n"
  }

  function Heartbeat(n: Word): (t: Loop)
    requires n + 1 < WORD_SIZE
  {
    Loop(Locals(1, 0, 0), n + 1, (v: Locals) => HeartbeatLine(v.i), (v: Locals) => v)
  }

  function Fibonacci(n: Word): (t: Loop)
    requires n + 1 < WORD_SIZE
  {
    Loop(Locals(1, 0, 1), n + 1,
         (v: Locals) => FibonacciLine(v.i, v.b),
         (v: Locals) => v.(a := v.b, b := Add(v.a, v.b)))
  }

  function Spinner(n: Word): (t: Loop) {
    Loop(Locals(0, 0, 0), n, (v: Locals) => SpinnerLine(v.i), (v: Locals) => v)
  }

  function Workloads(n: Word): (ts: seq<Loop>)
    requires n + 1 < WORD_SIZE
  {
    [Heartbeat(n), Fibonacci(n), Spinner(n)]
  }

  lemma WorkloadsCount(n: Word)
    requires n + 1 < WORD_SIZE
    ensures AllCount(Workloads(n)) && Yields(Workloads(n)) == [n, n, n]
  {
  }

  function Fib(n: nat): (f: nat) {
    if n < 2 then n else Fib(n - 2) + Fib(n - 1)
  }

  lemma WrapSum(x: nat, y: nat)
    ensures Add(Wrap(x), Wrap(y)) == Wrap(x + y)
  {
    var a, b := x / 0x1_0000_0000_0000_0000, y / 0x1_0000_0000_0000_0000;
    assert x == 0x1_0000_0000_0000_0000 * a + Wrap(x) && y == 0x1_0000_0000_0000_0000 * b + Wrap(y);
    assert x + y == 0x1_0000_0000_0000_0000 * (a + b) + (Wrap(x) + Wrap(y));
  }

  /** The locals a and b hold consecutive Fibonacci numbers, modulo 2^64. */
  lemma {:induction false} FibonacciLocals(n: Word, j: nat)
    requires n + 1 < WORD_SIZE && j <= n
    ensures Iteration(Fibonacci(n), j) == Locals(1 + j, Wrap(Fib(j)), Wrap(Fib(j + 1)))
    decreases j
  {
    if j > 0 {
      FibonacciLocals(n, j - 1);
      WrapSum(Fib(j - 1), Fib(j));
    }
  }

  /** Round r prints tick r + 1, */
  lemma HeartbeatAt(n: Word, r: nat)
    requires n + 1 < WORD_SIZE && r < n
    ensures LoopLine(Heartbeat(n), r)
         == Expand("[heartbeat] tick " + Numeral(r + 1, DECIMAL) + " (task 1 of 3)\n")
  {
    CounterAt(Heartbeat(n), r);
  }

  /** the Fibonacci number of index r + 1, */
  lemma FibonacciAt(n: Word, r: nat)
    requires n + 1 < WORD_SIZE && r < n
    ensures LoopLine(Fibonacci(n), r)
         == Expand("[fibonacci] fib(" + Numeral(r + 1, DECIMAL) + ") = " + Numeral(Wrap(Fib(r + 1)), DECIMAL)
                   + " (task 2 of 3)\n")
  {
    FibonacciLocals(n, r);
  }

  /** and frame r modulo 4. */
  lemma SpinnerAt(n: Word, r: nat)
    requires r < n
    ensures LoopLine(Spinner(n), r)
         == Expand("[spinner] working " + [if r % 4 == 0 then '|' else if r % 4 == 1 then '/'
                                           else if r % 4 == 2 then '-' else '\\'] + " (task 3 of 3)\n")
  {
    CounterAt(Spinner(n), r);
  }
}
