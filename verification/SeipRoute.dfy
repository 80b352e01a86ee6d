/**
 One delivery of an interrupt that is never cleared. SEIP is pending and read-only for S-mode,
 so the S-mode handler masks it instead: it clears SIE and also SPIE, which sret would
 otherwise restore SIE from.
 */
module SeipRoute {
  import opened Words
  import opened Masks
  import opened Pmp
  import opened HartModel

  const SEI: nat := 9

  /** What an S-mode instruction does to the interrupt enables. */
  datatype Op = SetSie | ClearSie | SetSeie | Other

  /** An instruction and the address execution goes on at. */
  datatype Instr = Instr(op: Op, next: Word)

  /** The hart with its pending word, the sie.SEIE enable, the two handlers' trap counters, and what
      the S-mode handler recorded and raised. */
  datatype Machine = Machine(hart: Hart, mip: Word, seie: bool, sTraps: Word, mTraps: Word, sip: Word, done: bool)

  /** What csrr sip reads: the pending bits that are delegated. */
  function SipOf(mip: Word, mideleg: Word): (v: Word) {
    And(mip, mideleg)
  }

  /** Enabled interrupts go to S-mode if delegated (and then wait for SIE in S-mode), to M-mode
      otherwise (and then wait for MIE only in M-mode). */
  predicate TakenInS(m: Machine) {
    && Bit(m.mip, SEI) && m.seie && Bit(m.hart.mideleg, SEI)
    && (m.hart.priv == U || (m.hart.priv == S && m.hart.sie))
  }

  predicate TakenInM(m: Machine) {
    Bit(m.mip, SEI) && m.seie && !Bit(m.hart.mideleg, SEI) && (m.hart.priv != M || m.hart.mie)
  }

  /** s_trap_entry up to its sret; `maskReturn` says whether it clears SPIE as well as SIE. */
  function Handler(h: Hart, maskReturn: bool): (r: Hart) {
    h.(sie := false, spie := h.spie && !maskReturn)
  }

  /** An instruction boundary: deliver the pending interrupt if it is enabled. */
  function Boundary(m: Machine, maskReturn: bool): (r: Machine) {
    if TakenInS(m) then
      m.(hart := Sret(Handler(TrapToS(m.hart, INTERRUPT + SEI, 0), maskReturn)),
         sTraps := Add(m.sTraps, 1), sip := SipOf(m.mip, m.hart.mideleg), done := true)
    else if TakenInM(m) then
      m.(hart := Mret(TrapToM(m.hart, INTERRUPT + SEI, 0)), mTraps := Add(m.mTraps, 1))
    else m
  }

  function Execute(m: Machine, i: Instr): (r: Machine) {
    var m := m.(hart := m.hart.(pc := i.next));
    match i.op
    case SetSie => m.(hart := m.hart.(sie := true))
    case ClearSie => m.(hart := m.hart.(sie := false))
    case SetSeie => m.(seie := true)
    case Other => m
  }

  function Run(m: Machine, code: seq<Instr>, maskReturn: bool): (r: Machine) {
    if code == [] then m
    else Boundary(Execute(Run(m, code[..|code| - 1], maskReturn), code[|code| - 1]), maskReturn)
  }

  /** M-mode's drop into S-mode: SEI pending and delegated, SIE clear. */
  predicate Dropped(m: Machine) {
    m.hart.priv == S && Bit(m.mip, 9) && Bit(m.hart.mideleg, 9) && !m.hart.sie
  }

  /** Instructions that set SIE. */
  function Enables(code: seq<Instr>): (n: nat) {
    if code == [] then 0 else Enables(code[..|code| - 1]) + if code[|code| - 1].op == SetSie then 1 else 0
  }

  /** What the handler's record shows after code: the last instruction that set SIE was answered at
      the address after it, and SEIP showed as pending. */
  predicate Recorded(m: Machine, code: seq<Instr>, r: Machine) {
    if code == [] then
      r.hart.sepc == m.hart.sepc && r.hart.scause == m.hart.scause && r.sip == m.sip && r.done == m.done
    else if code[|code| - 1].op == SetSie then
      && r.hart.sepc == code[|code| - 1].next && r.hart.scause == 0x8000_0000_0000_0009
      && r.sip == SipOf(m.mip, m.hart.mideleg) && r.done
    else Recorded(m, code[..|code| - 1], r)
  }

  lemma {:induction false} RecordedSame(m: Machine, code: seq<Instr>, r: Machine, q: Machine)
    requires Recorded(m, code, r)
    requires q.hart.sepc == r.hart.sepc && q.hart.scause == r.hart.scause && q.sip == r.sip && q.done == r.done
    ensures Recorded(m, code, q)
    decreases |code|
  {
    if code != [] && code[|code| - 1].op != SetSie {
      RecordedSame(m, code[..|code| - 1], r, q);
    }
  }

  /** One instruction of S-mode code with the interrupt armed. */
  lemma ArmedStep(m: Machine, i: Instr)
    requires Dropped(m) && m.seie
    ensures var r := Boundary(Execute(m, i), true);
            && r.sTraps == (if i.op == SetSie then Add(m.sTraps, 1) else m.sTraps)
            && r.mTraps == m.mTraps && r.mip == m.mip && r.hart.mideleg == m.hart.mideleg && Dropped(r) && r.seie
            && Recorded(m, [i], r)
  {
    assert [i][..0] == [];
  }

  /** The same with SIE set and a handler that does not clear SPIE. */
  lemma UnmaskedStep(m: Machine, i: Instr)
    requires m.hart.priv == S && Bit(m.mip, 9) && Bit(m.hart.mideleg, 9) && m.seie && m.hart.sie
    requires i.op != ClearSie
    ensures var r := Boundary(Execute(m, i), false);
            && r.sTraps == Add(m.sTraps, 1)
            && r.hart.priv == S && r.mip == m.mip && r.hart.mideleg == m.hart.mideleg && r.seie && r.hart.sie
  {
  }

  /** Once SEIE is set, every instruction that sets SIE is answered by exactly one S-mode trap at the
      next instruction, no other instruction causes any, M-mode never traps, and SIE is clear
      again at every instruction boundary, for S-mode code of any length. */
  lemma {:induction false} OneTrapPerEnable(m: Machine, code: seq<Instr>)
    requires Dropped(m) && m.seie
    ensures var r := Run(m, code, true);
            && r.sTraps == Wrap(m.sTraps + Enables(code))
            && r.mTraps == m.mTraps
            && r.mip == m.mip && r.hart.mideleg == m.hart.mideleg && Dropped(r) && r.seie
            && Recorded(m, code, r)
    decreases |code|
  {
    if code != [] {
      var front := code[..|code| - 1];
      OneTrapPerEnable(m, front);
      ArmedStep(Run(m, front, true), code[|code| - 1]);
      WrapNext(m.sTraps + Enables(front));
      if code[|code| - 1].op != SetSie {
        RecordedSame(m, front, Run(m, front, true), Run(m, code, true));
      }
    }
  }

  lemma {:induction false} RunConcat(m: Machine, a: seq<Instr>, b: seq<Instr>, maskReturn: bool)
    ensures Run(m, a + b, maskReturn) == Run(Run(m, a, maskReturn), b, maskReturn)
    decreases |b|
  {
    if b == [] {
      assert a + b == a;
    } else {
      var n := |b| - 1;
      RunConcat(m, a, b[..n], maskReturn);
      assert (a + b)[..|a + b| - 1] == a + b[..n];
    }
  }

  /** Code that never sets SIE. */
  predicate Quiet(code: seq<Instr>) {
    forall i :: 0 <= i < |code| ==> code[i].op != SetSie
  }

  lemma {:induction false} QuietRun(m: Machine, code: seq<Instr>)
    requires Dropped(m) && m.seie && Quiet(code)
    ensures var r := Run(m, code, true);
            && r.sTraps == m.sTraps && r.mTraps == m.mTraps && r.mip == m.mip && Dropped(r) && r.seie
            && r.hart.sepc == m.hart.sepc && r.hart.scause == m.hart.scause && r.sip == m.sip && r.done == m.done
    decreases |code|
  {
    if code != [] {
      QuietRun(m, code[..|code| - 1]);
    }
  }

  lemma RunOne(m: Machine, i: Instr, maskReturn: bool)
    ensures Run(m, [i], maskReturn) == Boundary(Execute(m, i), maskReturn)
  {
    assert [i][..0] == [];
  }

  /** The program's run: SEIE set, a control stretch with SIE clear, SIE set once, and a tail that
      never sets it again. No trap until SIE is set, then exactly one, at the instruction after
      the one that set SIE and with SEIP showing, then none, however long the stretches are. */
  lemma OneShotDelivery(m: Machine, first: Instr, control: seq<Instr>, enable: Instr, tail: seq<Instr>)
    requires Dropped(m) && m.sTraps == 0 && m.mTraps == 0
    requires first.op == SetSeie && enable.op == SetSie && Quiet(control) && Quiet(tail)
    ensures Run(m, [first] + control, true).sTraps == 0
    ensures var r := Run(m, [first] + control + [enable] + tail, true);
            && r.sTraps == 1 && r.mTraps == 0 && r.done
            && r.hart.sepc == enable.next && r.hart.scause == 0x8000_0000_0000_0009 && Bit(r.sip, 9)
  {
    var m1 := Run(m, [first], true);
    RunOne(m, first, true);
    RunConcat(m, [first], control, true);
    QuietRun(m1, control);
    var m2 := Run(m1, control, true);
    RunConcat(m, [first] + control, [enable], true);
    var m3 := Run(m2, [enable], true);
    RunOne(m2, enable, true);
    AndBit(m2.mip, m2.hart.mideleg, SEI);
    RunConcat(m, [first] + control + [enable], tail, true);
    QuietRun(m3, tail);
  }

  /** The SPIE clear is load-bearing: with a handler that clears SIE alone, every instruction after
      the enable traps again, so n quiet instructions cost n more traps. */
  lemma {:induction false} WithoutSpieEveryBoundaryTraps(m: Machine, tail: seq<Instr>)
    requires m.hart.priv == S && Bit(m.mip, 9) && Bit(m.hart.mideleg, 9) && m.seie && m.hart.sie
    requires forall i :: 0 <= i < |tail| ==> tail[i].op != ClearSie
    ensures var r := Run(m, tail, false);
            && r.sTraps == Wrap(m.sTraps + |tail|)
            && r.hart.priv == S && Bit(r.mip, 9) && Bit(r.hart.mideleg, 9) && r.seie && r.hart.sie
    decreases |tail|
  {
    if tail != [] {
      WithoutSpieEveryBoundaryTraps(m, tail[..|tail| - 1]);
      UnmaskedStep(Run(m, tail[..|tail| - 1], false), tail[|tail| - 1]);
      WrapNext(m.sTraps + |tail| - 1);
    }
  }
}
