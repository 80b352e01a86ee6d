/** The trap entries and M-mode continuations of the store-fault programs in the form
    the program has them, each proved equal to its step of the run. */
module StoreFaultHandlers {
  import opened Words
  import opened Pmp
  import opened Sv39
  import opened HartModel
  import opened Runs
  import opened StoreFaultRun

  class Program {
    const b: Board
    const boot: Word          // boot_medeleg
    const rbA: Word           // pA_medeleg_rb
    var rbB: Word             // pB_medeleg_rb
    var hart: Hart
    var m: Slots              // m_regs
    var s: Slots              // s_regs
    var countA: Word          // pA_m_traps, pA_mcause, pA_mepc
    var causeA: Word
    var epcA: Word
    var pcA: Word             // pA_store_pc, pB_store_pc
    var pcB: Word
    var fails: nat
    var loc: Loc

    ghost function View(): Machine
      reads this
    {
      Machine(loc, hart, m, s, boot, rbA, rbB, countA, causeA, epcA, pcA, pcB, fails)
    }

    constructor (h: Hart, boot: Word, fails: nat, b: Board)
      ensures this.b == b && View() == Start(h, boot, fails, b)
    {
      var md := b.legal(boot, OnlyBit(b));
      this.b, this.boot, this.rbA, this.fails := b, boot, md, fails;
      hart := h.(priv := S, medeleg := md);
      m, s := Slots(0, 0, 0, U, b.sites.phase2, 0), Slots(0, 0, 0, U, 0, 0);
      rbB, countA, causeA, epcA, pcA, pcB := 0, 0, 0, 0, 0, 0;
      loc := PhaseA;
    }

    /** s_trap_entry */
    method SupervisorEntry()
      modifies `s, `hart, `loc
      ensures View() == EnterS(old(View()), b)
    {
      s := s.(count := Wrap(s.count + 1));
      s := s.(cause := hart.scause, pc := hart.sepc, from := hart.spp, tval := hart.stval);
      if s.cont == 0 {
        loc := Parked;
        return;
      }
      hart := hart.(sepc := s.cont);
      hart := Sret(hart);
      loc := Where(s.cont, b);
    }

    /** m_trap_entry */
    method MachineEntry()
      modifies `m, `hart, `loc
      ensures View() == EnterM(old(View()), b)
    {
      m := m.(count := Wrap(m.count + 1));
      m := m.(cause := hart.mcause, pc := hart.mepc, from := hart.mpp, tval := hart.mtval);
      if m.cont == 0 {
        loc := Parked;
        return;
      }
      hart := hart.(mepc := m.cont, mpp := M);
      hart := Mret(hart);
      loc := Where(m.cont, b);
    }

    /** phase2_mmode */
    method PhaseTwo()
      modifies `countA, `causeA, `epcA, `m, `rbB, `hart, `loc
      ensures View() == RunPhase2(old(View()), b)
    {
      ghost var before := View();
      countA, causeA, epcA := m.count, m.cause, m.pc;
      m := m.(cont := b.sites.report);
      rbB := b.legal(hart.medeleg, WithoutBit(hart.medeleg, b));
      hart := hart.(medeleg := rbB, priv := S);
      loc := PhaseB;
      assert rbB == RunPhase2(before, b).rbB;
      assert hart == RunPhase2(before, b).hart;
      assert m == RunPhase2(before, b).m;
    }

    method Check(ok: bool)
      modifies `fails
      ensures fails == old(fails) + Failed(ok)
    {
      if !ok {
        fails := fails + 1;
      }
    }

    method CheckPhaseA()
      modifies `fails
      ensures fails == old(fails) + FailedInA(old(View()), b)
    {
      var bit, once, cause := Bit(rbA, Cause(b)), s.count == 1, s.cause == Cause(b);
      var pc, tval, apart := s.pc == pcA, s.tval == STORE_VA, s.pc != s.tval;
      var from, ecall := s.from == S, countA == 1 && causeA == 9;
      Check(bit);
      Check(once);
      Check(cause);
      Check(pc);
      Check(tval);
      Check(apart);
      Check(from);
      Check(ecall);
    }

    method CheckPhaseB()
      modifies `fails
      ensures fails == old(fails) + FailedInB(old(View()), b)
    {
      var bit, twice, cause := Bit(rbB, Cause(b)), m.count == 2, m.cause == Cause(b);
      var pc, tval, from := m.pc == pcB, m.tval == STORE_VA, m.from == S;
      var quiet := s.count == 1;
      Check(!bit);
      Check(twice);
      Check(cause);
      Check(pc);
      Check(tval);
      Check(from);
      Check(quiet);
      Check(twice && quiet);
    }

    /** The restore with its check, in the program that has one. */
    method RestoreDelegation()
      modifies `hart, `fails
      ensures hart == old(hart).(medeleg := Restored(old(hart.medeleg), boot, b))
      ensures fails == old(fails) + Failed(hart.medeleg == boot || b.variant.UnmappedStore?)
    {
      if b.variant.DeniedStore? {
        hart := hart.(medeleg := b.legal(hart.medeleg, boot));
        Check(hart.medeleg == boot);
      }
    }

    /** report_mmode */
    method ReportAll()
      modifies `hart, `fails, `loc
      ensures View() == RunReport(old(View()), b)
    {
      ghost var before := View();
      RestoreDelegation();
      RecordsOnly(before, View(), b);
      CheckPhaseA();
      RecordsOnly(before, View(), b);
      CheckPhaseB();
      loc := if fails == 0 then Passed else Parked;
    }

    /** A synchronous trap taken at pc, through the entry it is delegated to. */
    method TrapFrom(pc: Word, cause: Word, tval: Word)
      modifies `hart, `m, `s, `loc
      ensures View() == TrapAt(old(View()), pc, cause, tval, b)
    {
      hart := hart.(pc := pc);
      var toS := GoesToS(hart, cause);
      if toS {
        hart := TrapToS(hart, cause, tval);
        SupervisorEntry();
      } else {
        hart := TrapToM(hart, cause, tval);
        MachineEntry();
      }
    }

    /** `sd` from S-mode. */
    method StoreTo(pc: Word, va: Word, next: Loc)
      modifies `hart, `m, `s, `loc
      ensures View() == StoreAt(old(View()), pc, va, next, b)
    {
      match b.store(va) {
        case Done(_) => loc := next;
        case PageFault => TrapFrom(pc, 15, va);
        case AccessFault => TrapFrom(pc, 7, va);
      }
    }

    /** smode_phaseA, up to its fault or its ecall. */
    method PayloadA()
      requires loc == PhaseA
      modifies `hart, `m, `s, `pcA, `loc
      ensures View() == RunPhaseA(old(View()), b)
    {
      s, pcA := s.(cont := b.sites.ecallA), b.sites.storeA;
      if b.variant.DeniedStore? {
        StoreTo(b.sites.storeA, b.sites.scratch, PhaseA);
      }
      if loc == PhaseA {
        StoreTo(b.sites.storeA, STORE_VA, EcallA);
      }
    }

    /** smode_phaseB */
    method PayloadB()
      requires loc == PhaseB
      modifies `hart, `m, `s, `pcB, `loc
      ensures View() == RunPhaseB(old(View()), b)
    {
      pcB := b.sites.storeB;
      if b.variant.DeniedStore? {
        StoreTo(b.sites.storeB, b.sites.scratch, PhaseB);
      }
      if loc == PhaseB {
        StoreTo(b.sites.storeB, STORE_VA, Parked);
      }
    }

    method Advance()
      modifies this
      ensures View() == StoreFaultRun.Step(old(View()), b)
    {
      match loc {
        case PhaseA => PayloadA();
        case EcallA => TrapFrom(b.sites.ecallA, 9, 0);
        case Phase2 => PhaseTwo();
        case PhaseB => PayloadB();
        case Report => ReportAll();
        case _ =>
      }
    }

    /** n steps; xs are the machines passed through. */
    method AdvanceBy(n: nat) returns (ghost xs: seq<Machine>)
      modifies this
      ensures |xs| == n + 1 && xs[0] == old(View()) && xs[n] == View() && Chain(Stepper(b), xs)
    {
      xs := [View()];
      for k := 0 to n
        invariant |xs| == k + 1 && xs[0] == old(View()) && xs[k] == View() && Chain(Stepper(b), xs)
      {
        Advance();
        ChainGrows(Stepper(b), xs, View());
        xs := xs + [View()];
      }
    }
  }

  /** The report's checks look at the records alone. */
  lemma RecordsOnly(x: Machine, y: Machine, b: Board)
    requires y == x.(hart := y.hart, fails := y.fails)
    ensures FailedInA(y, b) == FailedInA(x, b) && FailedInB(y, b) == FailedInB(x, b)
  {
  }

  lemma ChainVerdict(xs: seq<Machine>, h: Hart, boot: Word, fails: nat, b: Board)
    requires GoodBoard(b) && |xs| >= 6 && Chain(Stepper(b), xs) && xs[0] == Start(h, boot, fails, b)
    ensures var r := xs[|xs| - 1];
            && (r.loc == Passed <==> fails == 0 && Conforms(b, boot))
            && (r.loc == Passed ==> BothRoutesShown(r, b))
  {
    ChainIsRun(Stepper(b), xs, 0);
    Verdict(h, boot, fails, b, |xs| - 1);
  }

  /** The whole program over the address space its set-up builds, in n >= 5 steps: it passes exactly
      if set-up failed nothing and medeleg legalises as the run needs. */
  method RunProgram(h: Hart, boot: Word, fails: nat, b: Board, n: nat, ghost mem: nat -> Word, ghost at: Placement)
    returns (p: Program)
    requires SetUp(b, mem, at) && n >= 5
    ensures p.loc == Passed <==> fails == 0 && Conforms(b, boot)
    ensures p.loc == Passed ==> BothRoutesShown(p.View(), b)
  {
    SetUpIsGood(b, mem, at);
    p := RunOn(h, boot, fails, b, n);
  }

  /** All a run needs of its address space is the faulting store and the control store. */
  method RunOn(h: Hart, boot: Word, fails: nat, b: Board, n: nat) returns (p: Program)
    requires GoodBoard(b) && n >= 5
    ensures p.loc == Passed <==> fails == 0 && Conforms(b, boot)
    ensures p.loc == Passed ==> BothRoutesShown(p.View(), b)
  {
    p := new Program(h, boot, fails, b);
    var xs := p.AdvanceBy(n);
    ChainVerdict(xs, h, boot, fails, b);
  }
}
