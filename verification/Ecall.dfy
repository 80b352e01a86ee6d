/** The ecall ABI between an S-mode payload and its M-mode handler: what one call does to the
    registers, what a run of calls leaves in the log, and when the report says PASS. */
module Ecall {
  import opened Words
  import opened Masks

  /** x0 to x31. */
  type Regs = s: seq<Word> | |s| == 32 witness seq(32, _ => 0)

  datatype Trap = Trap(mcause: Word, mepc: Word, insn: nat, regs: Regs)

  /** One row of ecall_log. */
  datatype Row = Row(
    mcause: Word, mepc: Word, insn: nat,
    args: seq<Word>, temps: seq<Word>,
    result: Word, resume: Word)

  /** ecall_ncalls is the length of the log; a handler that finds it full parks the hart. */
  datatype State = State(log: seq<Row>, unexpected: bool, halted: bool)

  const LOG_ROWS: nat := 4
  const SVC_XOR_ARGS: Word := 1
  const SVC_EXIT_MMODE: Word := 0xE11

  function Args(r: Regs): (s: seq<Word>)
    ensures |s| == 8
  {
    r[10..18]
  }

  /** t0 to t6 are x5, x6, x7, x28, x29, x30 and x31. */
  function Temps(r: Regs): (s: seq<Word>)
    ensures |s| == 7
  {
    r[5..8] + r[28..32]
  }

  function XorAll(s: seq<Word>): (x: Word) {
    if s == [] then 0
    else
      XorWord(XorAll(s[..|s| - 1]), s[|s| - 1]);
      Xor(XorAll(s[..|s| - 1]), s[|s| - 1])
  }

  /** How many of the words have bit i. */
  function Ones(s: seq<Word>, i: nat): (n: nat) {
    if s == [] then 0 else Ones(s[..|s| - 1], i) + if Bit(s[|s| - 1], i) then 1 else 0
  }

  /** x is the exclusive or of the words: it has the bits an odd number of them have. */
  ghost predicate IsXorOf(x: Word, s: seq<Word>) {
    forall i: nat :: i < 64 ==> (Bit(x, i) <==> Ones(s, i) % 2 == 1)
  }

  lemma XorAllLast(s: seq<Word>, i: nat)
    requires s != []
    ensures Bit(XorAll(s), i) <==> Bit(XorAll(s[..|s| - 1]), i) != Bit(s[|s| - 1], i)
  {
    XorBit(XorAll(s[..|s| - 1]), s[|s| - 1], i);
  }

  lemma ParityNext(n: nat, a: bool, b: bool)
    requires a <==> n % 2 == 1
    ensures a != b <==> (n + if b then 1 else 0) % 2 == 1
  {
  }

  lemma {:induction false} XorAllBit(s: seq<Word>, i: nat)
    ensures Bit(XorAll(s), i) <==> Ones(s, i) % 2 == 1
    decreases |s|
  {
    if s == [] {
      NoBits(i);
    } else {
      var front, x := s[..|s| - 1], s[|s| - 1];
      XorAllBit(front, i);
      XorAllLast(s, i);
      ParityNext(Ones(front, i), Bit(XorAll(front), i), Bit(x, i));
    }
  }

  /** The handler's answer is the exclusive or of all its arguments, and no other word is. */
  lemma XorAllExact(s: seq<Word>, x: Word)
    ensures IsXorOf(x, s) <==> x == XorAll(s)
  {
    forall i: nat | i < 64
      ensures Bit(XorAll(s), i) <==> Ones(s, i) % 2 == 1
    {
      XorAllBit(s, i);
    }
    if IsXorOf(x, s) {
      WordBits();
      BitsDetermine(x, XorAll(s), 64);
    }
  }

  // ---------- One trap ----------

  predicate IsSupervisorCall(t: Trap) {
    t.mcause == 9 && t.insn == 0x73
  }

  predicate Xors(t: Trap) {
    IsSupervisorCall(t) && t.regs[17] == SVC_XOR_ARGS
  }

  predicate Exits(t: Trap) {
    IsSupervisorCall(t) && t.regs[17] == SVC_EXIT_MMODE
  }

  function ResultOf(t: Trap): (x: Word) {
    if Xors(t) then XorAll(t.regs[10..16]) else 0
  }

  function ResumeOf(t: Trap, exit: Word): (pc: Word) {
    if Exits(t) then exit else Add(t.mepc, 4)
  }

  function RowOf(t: Trap, exit: Word): (w: Row) {
    Row(t.mcause, t.mepc, t.insn, Args(t.regs), Temps(t.regs), ResultOf(t), ResumeOf(t, exit))
  }

  function Handle(s: State, t: Trap, exit: Word): (r: State) {
    if s.halted || |s.log| >= LOG_ROWS then s.(halted := true)
    else State(s.log + [RowOf(t, exit)], s.unexpected || !(Xors(t) || Exits(t)), false)
  }

  /** The registers the payload finds after the call. */
  function RegsAfter(t: Trap): (r: Regs) {
    if Xors(t) then t.regs[10 := ResultOf(t)] else t.regs
  }

  // ---------- Any run of traps ----------

  const BOOT: State := State([], false, false)

  function Run(s: State, ts: seq<Trap>, exit: Word): (r: State) {
    if ts == [] then s else Handle(Run(s, ts[..|ts| - 1], exit), ts[|ts| - 1], exit)
  }

  lemma RunLast(s: State, ts: seq<Trap>, t: Trap, exit: Word)
    ensures Run(s, ts + [t], exit) == Handle(Run(s, ts, exit), t, exit)
  {
    assert (ts + [t])[..|ts|] == ts;
  }

  /** From any state: rows once written never change, and neither flag is ever taken back. */
  lemma {:induction false} AppendOnly(s: State, ts: seq<Trap>, exit: Word)
    ensures var r := Run(s, ts, exit);
            && |s.log| <= |r.log| && r.log[..|s.log|] == s.log
            && (s.unexpected ==> r.unexpected) && (s.halted ==> r.halted)
    decreases |ts|
  {
    if ts != [] {
      var n := |ts| - 1;
      AppendOnly(s, ts[..n], exit);
      var before := Run(s, ts[..n], exit);
      assert (before.log + [RowOf(ts[n], exit)])[..|s.log|] == before.log[..|s.log|];
    }
  }

  predicate Served(t: Trap) {
    Xors(t) || Exits(t)
  }

  lemma {:induction false} RunLog(ts: seq<Trap>, exit: Word)
    ensures var r := Run(BOOT, ts, exit);
            && |r.log| == Min(|ts|, 4)
            && (forall i :: 0 <= i < |r.log| ==> r.log[i] == RowOf(ts[i], exit))
            && (r.halted <==> |ts| > 4)
    decreases |ts|
  {
    if ts != [] {
      var n := |ts| - 1;
      RunLog(ts[..n], exit);
      assert forall i :: 0 <= i < n ==> ts[..n][i] == ts[i];
    }
  }

  /** One of the first n traps asked for no known service. */
  ghost predicate SomeUnserved(ts: seq<Trap>, n: nat)
    requires n <= |ts|
  {
    exists i :: 0 <= i < n && !Served(ts[i])
  }

  lemma UnservedNext(ts: seq<Trap>, n: nat)
    requires n < |ts|
    ensures SomeUnserved(ts, n + 1) <==> SomeUnserved(ts, n) || !Served(ts[n])
  {
  }

  lemma UnservedPrefix(ts: seq<Trap>, k: nat, n: nat)
    requires n <= k <= |ts|
    ensures SomeUnserved(ts[..k], n) <==> SomeUnserved(ts, n)
  {
    assert forall i :: 0 <= i < k ==> ts[..k][i] == ts[i];
  }

  lemma {:induction false} RunUnexpected(ts: seq<Trap>, exit: Word)
    ensures Run(BOOT, ts, exit).unexpected <==> SomeUnserved(ts, Min(|ts|, 4))
    decreases |ts|
  {
    if ts != [] {
      var n := |ts| - 1;
      RunUnexpected(ts[..n], exit);
      RunLog(ts[..n], exit);
      UnservedPrefix(ts, n, Min(n, 4));
      if n < 4 {
        UnservedNext(ts, n);
      }
    }
  }

  /** After any run from boot the log holds the first traps in order, and the unexpected flag tells
      exactly whether one of them asked for no known service. */
  lemma {:induction false} RunExact(ts: seq<Trap>, exit: Word)
    ensures var r := Run(BOOT, ts, exit);
            && |r.log| == Min(|ts|, 4)
            && (forall i :: 0 <= i < |r.log| ==> r.log[i] == RowOf(ts[i], exit))
            && (r.unexpected <==> SomeUnserved(ts, |r.log|))
            && (r.halted <==> |ts| > 4)
  {
    RunLog(ts, exit);
    RunUnexpected(ts, exit);
  }

  // ---------- The payload and the report ----------

  /** What one set loads: a0 to a5, a6, t0 to t6. */
  datatype CallSet = CallSet(args: seq<Word>, a6: Word, temps: seq<Word>)

  predicate Complete(c: CallSet) {
    |c.args| == 6 && |c.temps| == 7
  }

  /** The handler finds exactly what the payload loaded. */
  predicate Loaded(r: Regs, c: CallSet) {
    Args(r) == c.args + [c.a6, SVC_XOR_ARGS] && Temps(r) == c.temps
  }

  /** out[]: a0 to a7 and t0 to t6 as the payload reads them back. */
  function Snapshot(r: Regs): (out: seq<Word>)
    ensures |out| == 15
  {
    Args(r) + Temps(r)
  }

  /** The read-back the payload accepts. */
  function Accepted(c: CallSet): (out: seq<Word>)
    requires Complete(c)
  {
    [XorAll(c.args)] + c.args[1..] + [c.a6, SVC_XOR_ARGS] + c.temps
  }

  predicate RowMatches(w: Row, c: CallSet, out: seq<Word>)
    requires Complete(c)
  {
    && w.mcause == 9 && w.insn == 0x73
    && w.args == c.args + [c.a6, SVC_XOR_ARGS] && w.temps == c.temps
    && out == Accepted(c) && out[0] == w.result
  }

  /** What m_report prints; a parked hart prints nothing. */
  predicate Passes(s: State, sets: seq<CallSet>, outs: seq<seq<Word>>)
    requires |sets| == |outs| == 3 && forall n :: 0 <= n < 3 ==> Complete(sets[n])
  {
    && !s.halted && !s.unexpected && |s.log| == 4
    && forall n :: 0 <= n < 3 ==> RowMatches(s.log[n], sets[n], outs[n])
  }

  /** Of the registers a set loads, the payload reads back what it accepts exactly if the read-back
      is what the handler left. */
  lemma AcceptedIsSnapshot(t: Trap, c: CallSet)
    requires Complete(c) && Xors(t) && Loaded(t.regs, c)
    ensures Snapshot(RegsAfter(t)) == Accepted(c)
    ensures ResultOf(t) == Accepted(c)[0]
  {
    var r := RegsAfter(t);
    assert c.args == Args(t.regs)[..6] == t.regs[10..16];
    assert Temps(r) == Temps(t.regs);
    assert Args(r) == [r[10]] + Args(t.regs)[1..];
    assert Args(t.regs)[1..] == c.args[1..] + [c.a6, SVC_XOR_ARGS];
  }

  /** A run of calls as the payload means it. */
  predicate AsIntended(t: Trap, c: CallSet, out: seq<Word>)
    requires Complete(c)
  {
    Xors(t) && Loaded(t.regs, c) && out == Snapshot(RegsAfter(t))
  }

  lemma RowMatchesIff(t: Trap, c: CallSet, out: seq<Word>, exit: Word)
    requires Complete(c)
    ensures RowMatches(RowOf(t, exit), c, out) <==> AsIntended(t, c, out)
  {
    assert Args(t.regs)[7] == t.regs[17];
    if Xors(t) && Loaded(t.regs, c) {
      AcceptedIsSnapshot(t, c);
    }
  }

  /** The report says PASS after exactly these runs: four traps, the last a known service, and each
      of the first three an XOR call that carried the set's registers in and gave the payload back
      what the handler left. */
  lemma PassIff(ts: seq<Trap>, exit: Word, sets: seq<CallSet>, outs: seq<seq<Word>>)
    requires |sets| == |outs| == 3 && forall n :: 0 <= n < 3 ==> Complete(sets[n])
    ensures Passes(Run(BOOT, ts, exit), sets, outs) <==>
              && |ts| == 4 && Served(ts[3])
              && forall n :: 0 <= n < 3 ==> AsIntended(ts[n], sets[n], outs[n])
  {
    RunExact(ts, exit);
    if |ts| == 4 {
      forall n | 0 <= n < 3
        ensures RowMatches(RowOf(ts[n], exit), sets[n], outs[n]) <==> AsIntended(ts[n], sets[n], outs[n])
      {
        RowMatchesIff(ts[n], sets[n], outs[n], exit);
      }
    }
  }
}
