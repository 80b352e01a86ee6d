/** seip_trap.S and smode_main: the S-mode side of the interrupt program in the form it has. */
module SeipProgram {
  import opened Words
  import opened Masks
  import opened Pmp
  import opened HartModel
  import opened SeipRoute

  /** The registers the entry borrows, and the CSR it swaps t0 with. */
  datatype Temps = Temps(t0: Word, t1: Word, t2: Word, sscratch: Word)

  /** s_regs, slots 0 to 6. */
  datatype Slots = Slots(count: Word, parked1: Word, cause: Word, pc: Word, sip: Word, flagAt: Word, parked2: Word)

  class Supervisor {
    const record: Word    // address of s_regs
    const flag: Word      // address of s_done
    var temps: Temps
    var slots: Slots
    var mCount: Word      // m_regs[0]
    var done: bool        // s_done
    var hart: Hart
    var mip: Word
    var seie: bool
    var executed: nat     // instructions of smode_main so far
    var checks: nat
    var fails: nat

    ghost function View(): Machine
      reads this
    {
      Machine(hart, mip, seie, slots.count, mCount, slots.sip, done)
    }

    /** Between traps: sscratch points at the record, the record at the flag. */
    ghost predicate Valid()
      reads this
    {
      temps.sscratch == record && slots.flagAt == flag
    }

    constructor (record: Word, flag: Word, h: Hart, mip: Word)
      ensures Valid() && View() == Machine(h, mip, false, 0, 0, 0, false) && fails == 0
    {
      this.record, this.flag := record, flag;
      temps, slots := Temps(0, 0, 0, record), Slots(0, 0, 0, 0, 0, flag, 0);
      mCount, done, hart, this.mip, seie, executed, checks, fails := 0, false, h, mip, false, 0, 0, 0;
    }

    /** The entry's first half: t0 becomes the record's address, t1 and t2 are parked in it, then
        count, cause, pc and pending word are written. */
    method Park()
      requires Valid()
      modifies `temps, `slots
      ensures temps.t0 == record && temps.sscratch == old(temps.t0)
      ensures slots == Slots(Add(old(slots.count), 1), old(temps.t1), hart.scause, hart.sepc,
                             SipOf(mip, hart.mideleg), flag, old(temps.t2))
    {
      temps := temps.(t0 := temps.sscratch, sscratch := temps.t0);
      slots := slots.(parked1 := temps.t1);
      slots := slots.(parked2 := temps.t2);
      temps := temps.(t1 := slots.count);
      temps := temps.(t1 := Add(temps.t1, 1));
      slots := slots.(count := temps.t1);
      temps := temps.(t1 := hart.scause);
      slots := slots.(cause := temps.t1);
      temps := temps.(t1 := hart.sepc);
      slots := slots.(pc := temps.t1);
      temps := temps.(t1 := SipOf(mip, hart.mideleg));
      slots := slots.(sip := temps.t1);
    }

    /** Its second half: SIE and SPIE cleared, the flag raised, the registers restored. */
    method MaskAndReturn()
      requires temps.t0 == record && slots.flagAt == flag
      modifies `temps, `done, `hart
      ensures temps == Temps(old(temps.sscratch), slots.parked1, slots.parked2, record)
      ensures done && hart == Sret(Handler(old(hart), true))
    {
      temps := temps.(t1 := 0x22);
      hart := hart.(sie := false, spie := false);
      temps := temps.(t1 := slots.flagAt, t2 := 1);
      done := true;
      temps := temps.(t2 := slots.parked2);
      temps := temps.(t1 := slots.parked1);
      temps := temps.(t0 := temps.sscratch, sscratch := temps.t0);
      hart := Sret(hart);
    }

    /** s_trap_entry: counts, records cause, pc and sip, clears SIE and SPIE, raises the flag, and
        returns with the registers it borrowed as they were. */
    method SupervisorEntry()
      requires Valid()
      modifies `temps, `slots, `done, `hart
      ensures Valid() && temps == old(temps) && done
      ensures slots.count == Add(old(slots.count), 1) && slots.sip == SipOf(mip, old(hart.mideleg))
      ensures slots.cause == old(hart.scause) && slots.pc == old(hart.sepc)
      ensures hart == Sret(Handler(old(hart), true))
    {
      Park();
      MaskAndReturn();
    }

    /** The interrupt, if the hart takes it at this boundary. */
    method Deliver()
      requires Valid()
      modifies `temps, `slots, `done, `hart, `mCount
      ensures Valid() && temps == old(temps) && View() == Boundary(old(View()), true)
      ensures slots.count == old(slots.count) ==> slots.cause == old(slots.cause) && slots.pc == old(slots.pc)
      ensures slots.count != old(slots.count) ==> slots.cause == INTERRUPT + SEI && slots.pc == old(hart.pc)
    {
      var pending, delegated := Bit(mip, SEI), Bit(hart.mideleg, SEI);
      if pending && seie && delegated && (hart.priv == U || (hart.priv == S && hart.sie)) {
        hart := TrapToS(hart, INTERRUPT + SEI, 0);
        SupervisorEntry();
      } else if pending && seie && !delegated && (hart.priv != M || hart.mie) {
        hart := Mret(TrapToM(hart, INTERRUPT + SEI, 0));
        mCount := Add(mCount, 1);
      }
    }

    /** One instruction and the boundary after it. */
    method Step(i: Instr)
      requires Valid()
      modifies `temps, `slots, `done, `hart, `mCount, `seie, `executed
      ensures executed == old(executed) + 1
      ensures Valid() && temps == old(temps) && View() == Boundary(Execute(old(View()), i), true)
      ensures slots.count == old(slots.count) ==> slots.cause == old(slots.cause) && slots.pc == old(slots.pc)
      ensures slots.count != old(slots.count) ==> slots.cause == INTERRUPT + SEI && slots.pc == i.next
    {
      executed := executed + 1;
      hart := hart.(pc := i.next);
      match i.op {
        case SetSie => hart := hart.(sie := true);
        case ClearSie => hart := hart.(sie := false);
        case SetSeie => seie := true;
        case Other =>
      }
      Deliver();
    }

    method Check(ok: bool)
      modifies `checks, `fails
      ensures checks == old(checks) + 1 && fails == old(fails) + if ok then 0 else 1
    {
      checks := checks + 1;
      if !ok {
        fails := fails + 1;
      }
    }

    /** The interrupt is armed: pending, delegated and enabled, with SIE clear. */
    ghost predicate Armed()
      reads this
    {
      Valid() && Dropped(View()) && seie
    }

    /** A polling stretch of n instructions with SIE clear: no trap of either kind. */
    method Poll(n: nat, next: nat -> Word)
      requires Armed()
      modifies this
      ensures Armed() && fails == old(fails) && checks == old(checks) && mip == old(mip)
      ensures slots.count == old(slots.count) && mCount == old(mCount) && done == old(done)
      ensures slots.cause == old(slots.cause) && slots.pc == old(slots.pc) && slots.sip == old(slots.sip)
      ensures executed == old(executed) + n
    {
      for k := 0 to n
        invariant Armed() && fails == old(fails) && checks == old(checks) && mip == old(mip)
        invariant slots.count == old(slots.count) && mCount == old(mCount) && done == old(done)
        invariant slots.cause == old(slots.cause) && slots.pc == old(slots.pc) && slots.sip == old(slots.sip)
        invariant executed == old(executed) + k
      {
        Step(Instr(Other, next(k)));
      }
    }

    /** Setting SIE: the pending interrupt is taken at the boundary, once, and masked again. */
    method Enable(next: Word)
      requires Armed()
      modifies this
      ensures Armed() && fails == old(fails) && checks == old(checks) && mip == old(mip)
      ensures slots.count == Add(old(slots.count), 1) && mCount == old(mCount) && done
      ensures slots.cause == 0x8000_0000_0000_0009 && slots.pc == next && Bit(slots.sip, 9)
      ensures executed == old(executed) + 1
    {
      AndBit(mip, hart.mideleg, SEI);
      Step(Instr(SetSie, next));
    }

    /** wait_for_done and the mask after it: the loop ends at once if the flag is up and runs the
        whole budget if not, and either way nothing more is delivered. */
    method WaitAndMask(budget: nat, next: nat -> Word) returns (spins: nat)
      requires Armed()
      modifies this
      ensures Armed() && fails == old(fails) && checks == old(checks) && mip == old(mip)
      ensures slots.count == old(slots.count) && mCount == old(mCount) && done == old(done)
      ensures slots.cause == old(slots.cause) && slots.pc == old(slots.pc) && slots.sip == old(slots.sip)
      ensures spins == (if done then 0 else budget) && executed == old(executed) + spins + 1
    {
      spins := 0;
      while !done && spins < budget
        invariant Armed() && fails == old(fails) && checks == old(checks) && mip == old(mip)
        invariant slots.count == old(slots.count) && mCount == old(mCount) && done == old(done)
        invariant slots.cause == old(slots.cause) && slots.pc == old(slots.pc) && slots.sip == old(slots.sip)
        invariant spins <= budget && (done ==> spins == 0) && executed == old(executed) + spins
      {
        Step(Instr(Other, next(spins)));
        spins := spins + 1;
      }
      Step(Instr(ClearSie, next(spins)));
    }

    /** smode_main: every one of its checks holds, wherever its code lies and whatever the lengths of
        the control and quiet windows and the polling budget. */
    method SmodeMain(control: nat, budget: nat, quiet: nat, expected: Word, next: nat -> Word)
      requires Valid() && Dropped(View()) && slots.count == 0 && mCount == 0 && budget > 0
      modifies this
      ensures fails == old(fails) && checks == old(checks) + 9 && slots.count == 1 && mCount == 0
      ensures slots.cause == 0x8000_0000_0000_0009 && slots.pc == expected && Bit(slots.sip, 9)
      ensures executed == old(executed) + control + quiet + 3
    {
      Step(Instr(SetSeie, next(0)));
      Check(seie);
      done := false;
      Poll(control, next);
      Check(slots.count == 0 && mCount == 0);
      Enable(expected);
      var spins := WaitAndMask(budget, next);
      CheckDelivery(spins < budget, expected);
      Poll(quiet, next);
      Check(slots.count == 1 && mCount == 0);
    }

    /** The six checks after the delivery. */
    method CheckDelivery(inTime: bool, expected: Word)
      requires inTime && slots.count == 1 && mCount == 0
      requires slots.cause == 0x8000_0000_0000_0009 && slots.pc == expected && Bit(slots.sip, 9)
      modifies `checks, `fails
      ensures fails == old(fails) && checks == old(checks) + 6
    {
      Check(inTime);
      Check(slots.count == 1);
      Check(slots.cause == 0x8000_0000_0000_0009);
      Check(slots.pc == expected);
      var shown := Bit(slots.sip, 9);
      Check(shown);
      Check(mCount == 0);
    }
  }
}
