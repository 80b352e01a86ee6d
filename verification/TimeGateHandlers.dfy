/** The handlers of the mcounteren.TM experiment in the form the program has them: globals
    updated step by step. Each is proved equal to its step of the state machine. */
module TimeGateHandlers {
  import opened Words
  import opened TimeGate
  import opened TimeGateSoundness

  class Experiment {
    const h: Hart
    const sites: Sites

    // mtmu_regs[3], mtmu_regs[4], mtmu_hist, mtmu_bad_cause, mtmu_bad_sig
    var trapCount: Word
    var resume: Word
    var hist: seq<Row>
    var badCause: Word
    var badSig: Word
    // mtmu_m_phase, mtmu_m_regs[2]
    var mPhase: nat
    var mTraps: nat
    // the CSRs, and their boot values
    var mc: Word
    var sc: Word
    var md: Word
    var boot: BootCsrs
    // fails, and the words fed to cksum
    var tally: Tally
    // where the hart goes next
    var loc: Loc

    ghost function View(): State
      reads this
    {
      State(loc, trapCount, resume, hist, badCause, badSig, mPhase, mTraps, mc, sc, md, boot, tally)
    }

    method CheckAndFeed(ok: bool, v: Word)
      modifies `tally
      ensures tally == Check(old(tally), ok, v)
    {
      if !ok {
        tally := tally.(fails := tally.fails + 1);
      }
      tally := tally.(fed := tally.fed + [v]);
    }

    method CheckFlagged(ok: bool)
      modifies `tally
      ensures tally == CheckFlag(old(tally), ok)
    {
      CheckAndFeed(ok, Flag(ok));
    }

    /** M-mode set-up, up to the first drop to U-mode. */
    constructor (h: Hart, sites: Sites, boot: BootCsrs)
      ensures this.h == h && this.sites == sites
      ensures View() == Boot(h, sites, boot)
    {
      this.h, this.sites, this.boot := h, sites, boot;
      trapCount, resume, hist, badCause, badSig := 0, 0, [], 0, 0;
      mPhase, mTraps, tally := 0, 0, Tally(0, []);
      loc := UMode(sites.payloadA);
      // The CSR writes in program order, each followed by the readback its check looks at.
      var probe := h.mcounteren(boot.mc, 7);
      var gate := h.mcounteren(probe, TM);
      var sGate := h.scounteren(boot.sc, TM);
      var deleg := h.medeleg(boot.md, DELEGATED);
      var gateOk, delegOk := TmSet(gate), Bit(deleg, 2) && Bit(deleg, 8);
      mc, sc, md := gate, sGate, deleg;
      new;
      CheckAndFeed(boot.mc == 0, boot.mc);
      CheckAndFeed(probe == 7, probe);
      CheckFlagged(gateOk);
      CheckAndFeed(sGate == TM, sGate);
      CheckFlagged(delegOk);
    }

    /** mtmu_trap_entry and mtmu_handle. */
    method Handle(f: Frame)
      modifies `trapCount, `resume, `hist, `badCause, `badSig, `loc
      ensures View() == Dispatch(old(View()), f, sites)
    {
      trapCount := Wrap(trapCount + 1);
      if |hist| < HISTORY_SIZE {
        hist := hist + [Row(f, trapCount, resume)];
      }
      if f.cause == 2 {
        resume := Wrap(f.epc + 4);
        loc := UMode(resume);
      } else if f.cause == 8 && f.a0 == SIG_A {
        resume, loc := sites.doneA, Continuation(A);
      } else if f.cause == 8 && f.a0 == SIG_B {
        resume, loc := sites.doneB, Continuation(B);
      } else if f.cause == 8 && f.a0 == SIG_C {
        resume, loc := sites.doneC, Continuation(C);
      } else {
        badCause, badSig := f.cause, f.a0;
        resume, loc := sites.unexpected, Parked;
      }
    }

    method SampleDone(n: nat, row: nat, site: Word, sig: Word)
      modifies `tally, `loc
      ensures View() == old(View()).(
                tally := SampleChecks(old(View()).tally, |hist| == n, RowAt(old(View()), row), site, sig),
                loc := Handoff)
    {
      var f := if row < |hist| then hist[row].frame else Frame(0, 0, 0, 0, 0, 0, 0);
      CheckFlagged(|hist| == n);
      CheckAndFeed(f.cause == 8, f.cause);
      CheckFlagged(f.epc == site);
      CheckFlagged(f.a0 == sig);
      CheckFlagged(f.t1 > f.t0);
      CheckFlagged(f.t0 != 0);
      loc := Handoff;
    }

    method PhaseADone()
      modifies `tally, `loc
      ensures View() == Continue(old(View()), A, sites)
    {
      SampleDone(1, 0, sites.ecallA, SIG_A);
    }

    method PhaseBDone()
      modifies `tally, `loc
      ensures View() == Continue(old(View()), B, sites)
    {
      var gated := if 1 < |hist| then hist[1].frame else Frame(0, 0, 0, 0, 0, 0, 0);
      var closing := if 2 < |hist| then hist[2].frame else Frame(0, 0, 0, 0, 0, 0, 0);
      CheckFlagged(|hist| == 3);
      CheckAndFeed(gated.cause == 2, gated.cause);
      CheckFlagged(gated.epc == sites.rdtimeB);
      CheckFlagged(gated.t0 == SENTINEL);
      CheckAndFeed(closing.cause == 8, closing.cause);
      CheckFlagged(closing.epc == sites.ecallB);
      CheckFlagged(closing.a0 == SIG_B);
      loc := Handoff;
    }

    method PhaseCDone()
      modifies `tally, `loc
      ensures View() == Continue(old(View()), C, sites)
    {
      SampleDone(4, 3, sites.ecallC, SIG_C);
    }

    /** The shared tail of phases 0 and 1, after the gate was written. */
    method ArmNext(gateOk: bool, next: Word)
      modifies `mPhase, `tally, `loc
      ensures View() == Arm(old(View()), mc, gateOk, next)
    {
      CheckFlagged(sc == TM);
      CheckFlagged(gateOk);
      if tally.fails != 0 {
        loc := Parked;
      } else {
        mPhase, loc := mPhase + 1, UMode(next);
      }
    }

    /** The three CSR restores, each with the check of its readback. */
    method RestoreCsrs()
      modifies `mc, `sc, `md, `tally
      ensures mc == h.mcounteren(old(mc), boot.mc) && sc == h.scounteren(old(sc), boot.sc)
      ensures md == h.medeleg(old(md), boot.md)
      ensures tally == CheckFlag(CheckFlag(CheckFlag(old(tally), mc == boot.mc), sc == boot.sc), md == boot.md)
    {
      mc := h.mcounteren(mc, boot.mc);
      CheckFlagged(mc == boot.mc);
      sc := h.scounteren(sc, boot.sc);
      CheckFlagged(sc == boot.sc);
      md := h.medeleg(md, boot.md);
      CheckFlagged(md == boot.md);
    }

    method RestoreAndReport()
      modifies `mc, `sc, `md, `tally, `loc
      ensures View() == Restore(old(View()), h)
    {
      RestoreCsrs();
      CheckFlagged(mTraps == 3);
      loc := if tally.fails == 0 then Passed else Parked;
    }

    method EnterM(mcause: Word, mepc: Word)
      modifies `mTraps, `tally
      ensures View() == MEnter(old(View()), mcause, mepc, sites)
    {
      mTraps := mTraps + 1;
      CheckAndFeed(mcause == 9, mcause);
      CheckFlagged(mepc == sites.sEcall);
    }

    /** mtmu_mt_trap_entry and mtmu_m_handle. */
    method HandleM(mcause: Word, mepc: Word)
      modifies `mPhase, `mTraps, `mc, `sc, `md, `tally, `loc
      ensures View() == MHandle(old(View()), mcause, mepc, h, sites)
    {
      EnterM(mcause, mepc);
      if mPhase == 0 {
        mc := h.mcounteren(mc, 0);
        ArmNext(!TmSet(mc), sites.payloadB);
      } else if mPhase == 1 {
        mc := h.mcounteren(mc, TM);
        ArmNext(TmSet(mc), sites.payloadC);
      } else if mPhase == 2 {
        RestoreAndReport();
      } else {
        loc := Parked;
      }
    }

    /** The continuation the dispatcher picked. */
    method RunContinuation(p: Phase)
      modifies `tally, `loc
      ensures View() == Continue(old(View()), p, sites)
    {
      match p {
        case A => PhaseADone();
        case B => PhaseBDone();
        case C => PhaseCDone();
      }
    }

    /** The ecall that ends a continuation. */
    method HandOffToM()
      modifies `badCause, `mPhase, `mTraps, `mc, `sc, `md, `tally, `loc
      ensures View() == HandOff(old(View()), h, sites)
    {
      var delegated := Bit(md, 9);
      if delegated {
        badCause, loc := 9, Parked;
      } else {
        HandleM(9, sites.sEcall);
      }
    }

    /** One trap out of U-mode, through every handler it sets off. */
    method ServeTrap(f: UTrap)
      modifies this
      ensures View() == Serve(old(View()), f, h, sites)
    {
      if !loc.UMode? {
        return;
      }
      var delegated := f.cause < 64 && Bit(md, f.cause);
      if !delegated {
        HandleM(f.cause, f.epc);
        return;
      }
      Handle(f);
      if loc.Continuation? {
        RunContinuation(loc.phase);
        HandOffToM();
      }
    }
  }

  /** The whole experiment against any U-mode: the handlers write PASS exactly if the hart conforms
      and the first four traps are the expected ones, and then leave exactly the record and the
      CSRs the verdict claims. */
  method RunExperiment(h: Hart, sites: Sites, boot: BootCsrs, traps: seq<UTrap>) returns (e: Experiment)
    ensures e.loc.Passed? <==> Conforms(h, boot) && GoodTraps(traps, sites)
    ensures e.loc.Passed? ==> Verdict(e.View(), traps[..4], boot)
  {
    e := new Experiment(h, sites, boot);
    ghost var s := e.View();
    var k := 0;
    while k < |traps|
      invariant 0 <= k <= |traps| && e.h == h && e.sites == sites && fresh(e)
      invariant Run(e.View(), traps[k..], h, sites) == Run(s, traps, h, sites)
    {
      assert traps[k..][0] == traps[k] && traps[k..][1..] == traps[k + 1..];
      e.ServeTrap(traps[k]);
      k := k + 1;
    }
    VerdictSound(h, sites, boot, traps);
  }
}
