/** ecall_trap.S and the C code of the ecall module: the trap entry with its save area, the
    dispatcher, the payload's own check and the report. */
module EcallFirmware {
  import opened Words
  import opened Ecall

  class Firmware {
    const exit: Word           // exit_resume_pc
    var area: Regs             // ecall_regs
    var log: seq<Row>          // ecall_log up to ecall_ncalls
    var unexpected: bool
    var halted: bool

    ghost function View(): State
      reads this
    {
      State(log, unexpected, halted)
    }

    constructor (exit: Word)
      ensures View() == BOOT && this.exit == exit
    {
      this.exit, area, log, unexpected, halted := exit, seq(32, _ => 0), [], false, false;
    }

    /** The two copy loops of the dispatcher. */
    method Received() returns (args: seq<Word>, temps: seq<Word>)
      ensures args == Args(area) && temps == Temps(area)
    {
      args, temps := [], [];
      for i := 0 to 8
        invariant args == area[10..10 + i]
      {
        args := args + [area[10 + i]];
      }
      var numbers := [5, 6, 7, 28, 29, 30, 31];
      for i := 0 to 7
        invariant |temps| == i && forall k :: 0 <= k < i ==> temps[k] == area[numbers[k]]
      {
        temps := temps + [area[numbers[i]]];
      }
    }

    /** ecall_handle: works on the saved registers. */
    method Dispatch(mcause: Word, mepc: Word, insn: nat) returns (resume: Word)
      requires !halted
      modifies `area, `log, `unexpected, `halted
      ensures var t := Trap(mcause, mepc, insn, old(area));
              && View() == Handle(old(View()), t, exit)
              && (!halted ==> area == RegsAfter(t) && resume == ResumeOf(t, exit))
      ensures !halted ==> log == old(log) + [log[|log| - 1]]
      ensures !halted && mcause == 9 && insn == 0x73 && old(area)[17] == 1 ==>
                IsXorOf(log[|log| - 1].result, old(area)[10..16])
    {
      XorAllExact(area[10..16], XorAll(area[10..16]));
      resume := Add(mepc, 4);
      if |log| >= LOG_ROWS {
        halted := true;
        return;
      }
      var args, temps := Received();
      var result: Word := 0;
      var service := area[17];
      if mcause == 9 && insn == 0x73 {
        if service == SVC_XOR_ARGS {
          result := XorAll(area[10..16]);
          area := area[10 := result];
        } else if service == SVC_EXIT_MMODE {
          resume := exit;
        } else {
          unexpected := true;
        }
      } else {
        unexpected := true;
      }
      log := log + [Row(mcause, mepc, insn, args, temps, result, resume)];
    }

    /** The trap entry: saves x1 to x31, dispatches, parks the resume address in the slot of x0 and
        restores. The interrupted program finds every register but a0 as it was. */
    method Entry(regs: Regs, mcause: Word, mepc: Word, insn: nat) returns (back: Regs, pc: Word)
      requires !halted && regs[0] == 0
      modifies `area, `log, `unexpected, `halted
      ensures var t := Trap(mcause, mepc, insn, regs);
              && View() == Handle(old(View()), t, exit)
              && (!halted ==> back == RegsAfter(t) && pc == ResumeOf(t, exit) && area[0] == pc)
      ensures var call := mcause == 9 && insn == 0x73;
              !halted ==>
                && (forall k :: 0 <= k < 32 && k != 10 ==> back[k] == regs[k])
                && (if call && regs[17] == 1 then IsXorOf(back[10], regs[10..16]) else back[10] == regs[10])
                && pc == if call && regs[17] == 0xE11 then exit else (mepc + 4) % 0x1_0000_0000_0000_0000
    {
      back, pc := regs, 0;
      ghost var t := Trap(mcause, mepc, insn, regs);
      area := [area[0]] + regs[1..];
      EntryArea(area, t, exit);
      pc := Dispatch(mcause, mepc, insn);
      if !halted {
        area := area[0 := pc];
        back := area[0 := 0];
        assert back == RegsAfter(t);
        CallMeans(t, exit);
      }
    }
  }

  /** What a call leaves and where it resumes, in words. */
  lemma CallMeans(t: Trap, exit: Word)
    ensures var call, back := t.mcause == 9 && t.insn == 0x73, RegsAfter(t);
            && (forall k :: 0 <= k < 32 && k != 10 ==> back[k] == t.regs[k])
            && (if call && t.regs[17] == 1 then IsXorOf(back[10], t.regs[10..16]) else back[10] == t.regs[10])
            && ResumeOf(t, exit)
               == if call && t.regs[17] == 0xE11 then exit else (t.mepc + 4) % 0x1_0000_0000_0000_0000
  {
    XorAllExact(t.regs[10..16], XorAll(t.regs[10..16]));
  }

  /** The slot of x0 is never looked at. */
  lemma EntryArea(area: Regs, t: Trap, exit: Word)
    requires area[1..] == t.regs[1..]
    ensures var u := t.(regs := area); RowOf(u, exit) == RowOf(t, exit) && Xors(u) == Xors(t) && Exits(u) == Exits(t)
  {
    var r := t.regs;
    assert forall k :: 1 <= k < 32 ==> area[k] == area[1..][k - 1] == r[k];
    assert area[10..16] == r[10..16];
    assert Args(area) == Args(r) && Temps(area) == Temps(r);
  }

  lemma AcceptedAt(c: CallSet)
    requires Complete(c)
    ensures var want := Accepted(c);
            && |want| == 15 && want[0] == XorAll(c.args) && want[6] == c.a6 && want[7] == SVC_XOR_ARGS
            && (forall i :: 1 <= i < 6 ==> want[i] == c.args[i])
            && (forall i :: 8 <= i < 15 ==> want[i] == c.temps[i - 8])
  {
  }

  predicate AgreeTo(out: seq<Word>, want: seq<Word>, n: nat)
    requires n <= |out| == |want|
  {
    forall k :: 0 <= k < n ==> out[k] == want[k]
  }

  /** run_set's checks of the read-back. */
  method CheckReadBack(c: CallSet, out: seq<Word>) returns (ok: bool)
    requires Complete(c) && |out| == 15
    ensures ok <==> out == Accepted(c)
    ensures ok <==>
            && IsXorOf(out[0], c.args) && out[1..6] == c.args[1..] && out[6] == c.a6 && out[7] == 1
            && out[8..] == c.temps
  {
    ghost var want := Accepted(c);
    AcceptedAt(c);
    ok := true;
    if out[0] != XorAll(c.args) {
      ok := false;
    }
    for i := 1 to 6
      invariant ok <==> AgreeTo(out, want, i)
    {
      if out[i] != c.args[i] {
        ok := false;
      }
    }
    if out[6] != c.a6 {
      ok := false;
    }
    if out[7] != SVC_XOR_ARGS {
      ok := false;
    }
    assert ok <==> AgreeTo(out, want, 8);
    for i := 0 to 7
      invariant ok <==> AgreeTo(out, want, 8 + i)
    {
      if out[8 + i] != c.temps[i] {
        ok := false;
      }
    }
    AcceptedMeans(c, out);
  }

  lemma AcceptedMeans(c: CallSet, out: seq<Word>)
    requires Complete(c) && |out| == 15
    ensures out == Accepted(c) <==>
            && IsXorOf(out[0], c.args) && out[1..6] == c.args[1..] && out[6] == c.a6 && out[7] == 1
            && out[8..] == c.temps
  {
    XorAllExact(c.args, out[0]);
    var want := Accepted(c);
    AcceptedAt(c);
    assert want[1..6] == c.args[1..] && want[8..] == c.temps;
    assert out == [out[0]] + out[1..6] + [out[6], out[7]] + out[8..];
    assert want == [want[0]] + want[1..6] + [want[6], want[7]] + want[8..];
  }

  /** m_report's loop over the sets. */
  method Report(f: Firmware, sets: seq<CallSet>, outs: seq<seq<Word>>) returns (pass: bool)
    requires |sets| == |outs| == 3 && !f.halted
    requires forall n :: 0 <= n < 3 ==> Complete(sets[n]) && |outs[n]| == 15
    ensures pass <==> Passes(f.View(), sets, outs)
  {
    pass := !f.unexpected && |f.log| == 4;
    var n := 0;
    while n < 3 && n < |f.log|
      invariant 0 <= n <= 3
      invariant pass <==>
                  && !f.unexpected && |f.log| == 4
                  && forall k :: 0 <= k < n ==> RowMatches(f.log[k], sets[k], outs[k])
    {
      var w, c := f.log[n], sets[n];
      var ok := CheckReadBack(c, outs[n]);
      var received := w.args == c.args + [c.a6, SVC_XOR_ARGS] && w.temps == c.temps;
      if w.mcause != 9 || w.insn != 0x73 || !received || !ok || outs[n][0] != w.result {
        pass := false;
      }
      n := n + 1;
    }
  }

  /** The registers do_ecall pins; the rest are whatever the compiler keeps in them. */
  function Pinned(context: Regs, c: CallSet, service: Word): (r: Regs)
    requires Complete(c)
  {
    context[..5] + c.temps[..3] + context[8..10] + c.args + [c.a6, service] + context[18..28] + c.temps[3..]
  }

  lemma PinnedIsLoaded(context: Regs, c: CallSet, service: Word)
    requires Complete(c)
    ensures var r := Pinned(context, c, service);
            && r[0] == context[0] && r[17] == service && Args(r) == c.args + [c.a6, service]
            && (service == SVC_XOR_ARGS ==> Loaded(r, c))
  {
    var r := Pinned(context, c, service);
    assert r[10..18] == c.args + [c.a6, service];
    assert r[5..8] == c.temps[..3] && r[28..32] == c.temps[3..];
    assert c.temps == c.temps[..3] + c.temps[3..];
  }

  /** One ecall on a hart that raises cause 9 for it. */
  method DoEcall(f: Firmware, service: Word, c: CallSet, context: Regs, pc: Word)
    returns (out: seq<Word>, ghost t: Trap)
    requires Complete(c) && context[0] == 0 && !f.halted && |f.log| < LOG_ROWS
    modifies f
    ensures t == Trap(9, pc, 0x73, Pinned(context, c, service))
    ensures f.View() == Handle(old(f.View()), t, f.exit) && out == Snapshot(RegsAfter(t))
  {
    PinnedIsLoaded(context, c, service);
    t := Trap(9, pc, 0x73, Pinned(context, c, service));
    var back, _ := f.Entry(Pinned(context, c, service), 9, pc, 0x73);
    out := Snapshot(back);
  }

  /** run_set: the call carries the set in and the handler's answer back. */
  method RunSet(f: Firmware, c: CallSet, context: Regs, pc: Word) returns (out: seq<Word>, ghost t: Trap)
    requires Complete(c) && context[0] == 0 && !f.halted && |f.log| < LOG_ROWS
    modifies f
    ensures f.View() == Handle(old(f.View()), t, f.exit) && AsIntended(t, c, out)
  {
    PinnedIsLoaded(context, c, SVC_XOR_ARGS);
    out, t := DoEcall(f, SVC_XOR_ARGS, c, context, pc);
  }

  /** The first n calls carried their sets in and the handler's answers back. */
  ghost predicate Intended(ts: seq<Trap>, sets: seq<CallSet>, outs: seq<seq<Word>>, n: nat)
    requires n <= |ts| && n <= |sets| && n <= |outs|
    requires forall k :: 0 <= k < |sets| ==> Complete(sets[k])
  {
    forall k :: 0 <= k < n ==> AsIntended(ts[k], sets[k], outs[k])
  }

  lemma IntendedNext(ts: seq<Trap>, t: Trap, sets: seq<CallSet>, outs: seq<seq<Word>>, out: seq<Word>)
    requires forall k :: 0 <= k < |sets| ==> Complete(sets[k])
    requires |ts| == |outs| < |sets|
    requires Intended(ts, sets, outs, |ts|) && AsIntended(t, sets[|ts|], out)
    ensures Intended(ts + [t], sets, outs + [out], |ts| + 1)
  {
  }

  /** s_payload's loop. */
  method RunSets(f: Firmware, sets: seq<CallSet>, contexts: seq<Regs>, pcs: seq<Word>)
    returns (outs: seq<seq<Word>>, ghost ts: seq<Trap>)
    requires f.View() == BOOT && |sets| == |contexts| == |pcs| == 3
    requires forall n :: 0 <= n < |sets| ==> Complete(sets[n])
    requires forall n :: 0 <= n < 3 ==> contexts[n][0] == 0
    modifies f
    ensures |outs| == |ts| == 3 && f.View() == Run(BOOT, ts, f.exit) && Intended(ts, sets, outs, 3)
  {
    outs, ts := [], [];
    for s := 0 to 3
      invariant |outs| == |ts| == s && f.View() == Run(BOOT, ts, f.exit) && Intended(ts, sets, outs, s)
    {
      RunLog(ts, f.exit);
      var out, t := RunSet(f, sets[s], contexts[s], pcs[s]);
      RunLast(BOOT, ts, t, f.exit);
      IntendedNext(ts, t, sets, outs, out);
      outs, ts := outs + [out], ts + [t];
    }
  }

  /** The whole program on such a hart: three sets, the exit call, the report. It passes, for all
      arguments, all compiler-held registers and all call sites. */
  method RunProgram(f: Firmware, sets: seq<CallSet>, contexts: seq<Regs>, pcs: seq<Word>, last: Regs, lastPc: Word)
    returns (pass: bool, outs: seq<seq<Word>>)
    requires f.View() == BOOT && |sets| == |contexts| == |pcs| == 3 && last[0] == 0
    requires forall n :: 0 <= n < |sets| ==> Complete(sets[n])
    requires forall n :: 0 <= n < 3 ==> contexts[n][0] == 0
    modifies f
    ensures pass && |outs| == 3 && Passes(f.View(), sets, outs)
    ensures f.log[3].args == [0, 0, 0, 0, 0, 0, 0, 0xE11] && f.log[3].resume == f.exit
  {
    ghost var ts;
    outs, ts := RunSets(f, sets, contexts, pcs);
    RunLog(ts, f.exit);
    ghost var t := Leave(f, last, lastPc);
    RunLast(BOOT, ts, t, f.exit);
    PassIff(ts + [t], f.exit, sets, outs);
    pass := Report(f, sets, outs);
  }

  /** The exit call, which the handler answers by resuming at the report. */
  method Leave(f: Firmware, context: Regs, pc: Word) returns (ghost t: Trap)
    requires context[0] == 0 && !f.halted && |f.log| == 3
    modifies f
    ensures Served(t) && f.View() == Handle(old(f.View()), t, f.exit)
    ensures |f.log| == 4 && f.log[3].args == [0, 0, 0, 0, 0, 0, 0, 0xE11] && f.log[3].resume == f.exit
  {
    var zeros := CallSet([0, 0, 0, 0, 0, 0], 0, [0, 0, 0, 0, 0, 0, 0]);
    PinnedIsLoaded(context, zeros, SVC_EXIT_MMODE);
    var unread;
    unread, t := DoEcall(f, SVC_EXIT_MMODE, zeros, context, pc);
    assert Args(t.regs) == [0, 0, 0, 0, 0, 0] + [0, SVC_EXIT_MMODE];
  }
}
