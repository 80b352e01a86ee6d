/**
 The two-phase store-fault programs: one faulting store with its medeleg bit set, one with it
 clear, and the report. The stores go through the translation and protection of StoreFault,
 the traps through the hart's delegation, and medeleg writes through an arbitrary
 legalisation; the report passes exactly when the legalisation lets both routes show.
 */
module StoreFaultRun {
  import opened Words
  import opened Masks
  import opened Pmp
  import opened Sv39
  import opened StoreFault
  import opened HartModel
  import opened Runs

  const STORE_VA: Word := 0x8008_0000

  /** A trap save area: the slots the entries write. `cont` is slot 7. */
  datatype Slots = Slots(count: Word, cause: Word, pc: Word, from: Priv, cont: Word, tval: Word)

  /** Linker-resolved addresses. */
  datatype Sites = Sites(storeA: Word, ecallA: Word, storeB: Word, phase2: Word, report: Word, scratch: Word)

  datatype Loc = PhaseA | EcallA | Phase2 | PhaseB | Report | Parked | Passed

  datatype Machine = Machine(
    loc: Loc, hart: Hart, m: Slots, s: Slots,
    boot: Word, rbA: Word, rbB: Word,
    countA: Word, causeA: Word, epcA: Word,
    pcA: Word, pcB: Word,
    fails: nat)

  /** The access-fault program makes a control store to an allowed page before each faulting one
      and restores medeleg in its report; the page-fault program does neither. */
  datatype Variant = DeniedStore | UnmappedStore

  /** What surrounds the program: what becomes of an S-mode doubleword store to each address,
      how medeleg legalises a write, and where the linker put things. */
  datatype Board = Board(variant: Variant, store: Word -> Outcome, legal: (Word, Word) -> Word, sites: Sites)

  /** The cause of the expected fault, which is also its medeleg bit. */
  function Cause(b: Board): (c: Word)
    ensures c == 7 || c == 15
  {
    if b.variant.DeniedStore? then 7 else 15
  }

  predicate InWindow(a: Word) {
    0x8000_0000 <= a < 0x8008_0000
  }

  /** The code, its data and the two M-mode continuations lie where the set-up checks want them. */
  predicate GoodSites(s: Sites) {
    && InWindow(s.storeA) && InWindow(s.ecallA) && InWindow(s.storeB) && InWindow(s.scratch) && s.scratch % 8 == 0
    && s.phase2 != 0 && s.report != 0
    && s.phase2 != s.report && s.ecallA != s.phase2 && s.ecallA != s.report
  }

  /** Stores behave as the tables and the protection entries say. */
  ghost predicate SetUp(b: Board, mem: nat -> Word, at: Placement) {
    && GoodSites(b.sites)
    && match b.variant
       case DeniedStore =>
         && OffStorePage(at) && HoldsTables(mem, at, true)
         && forall va: Word :: b.store(va) == Access(mem, DENY_STORE_PAGE, at.root, va, 8, Store)
       case UnmappedStore =>
         && WellPlaced(at) && HoldsTables(mem, at, false)
         && forall va: Word :: b.store(va) == Access(mem, OPEN_ALL, at.root, va, 8, Store)
  }

  /** All the program sees of that: the control store completes, the other one faults. */
  predicate GoodBoard(b: Board) {
    && GoodSites(b.sites)
    && match b.variant
       case DeniedStore => b.store(b.sites.scratch).Done? && b.store(STORE_VA) == AccessFault
       case UnmappedStore => b.store(STORE_VA) == PageFault
  }

  lemma SetUpIsGood(b: Board, mem: nat -> Word, at: Placement)
    requires SetUp(b, mem, at)
    ensures GoodBoard(b)
  {
    if b.variant.DeniedStore? {
      LayeredIsFlat(mem, at, b.sites.scratch, 8, Store);
      LayeredIsFlat(mem, at, STORE_VA, 8, Store);
    } else {
      InvalidLeafPageFaults(mem, at, STORE_VA, 8, Store);
    }
  }

  /** The medeleg value with the fault's bit alone. */
  function OnlyBit(b: Board): (v: Word) {
    if b.variant.DeniedStore? then 0x80 else 0x8000
  }

  lemma OnlyBitIsPower(b: Board)
    ensures OnlyBit(b) == Pow2(Cause(b))
  {
    assert Pow2(7) == 0x80;
    assert Pow2(15) == 0x8000;
  }

  function WithoutBit(v: Word, b: Board): (r: Word) {
    if Bit(v, Cause(b)) then
      OnlyBitIsPower(b);
      ClearBit(v, Cause(b), 0);
      v - OnlyBit(b)
    else v
  }

  /** The value written for phase A delegates the program's own fault and nothing else: cause 7 in the
      access-fault program, cause 15 in the page-fault program. */
  lemma OnlyBitExact(b: Board, i: nat)
    ensures Bit(OnlyBit(b), i) <==> i == if b.variant.DeniedStore? then 7 else 15
  {
    OnlyBitIsPower(b);
    SingleBit(Cause(b), i);
  }

  /** The value written for phase B takes back that delegation and no other. */
  lemma WithoutBitExact(v: Word, b: Board, i: nat)
    ensures Bit(WithoutBit(v, b), i) <==> Bit(v, i) && i != if b.variant.DeniedStore? then 7 else 15
  {
    var c := Cause(b);
    if Bit(v, c) {
      ClearBit(v, c, i);
      OnlyBitIsPower(b);
      assert WithoutBit(v, b) == v - Pow2(c);
    }
  }

  // ---------- Trap entries ----------

  function Where(pc: Word, b: Board): (l: Loc) {
    if pc == b.sites.ecallA then EcallA
    else if pc == b.sites.phase2 then Phase2
    else if pc == b.sites.report then Report
    else Parked
  }

  /** s_trap_entry: count, record, resume where slot 7 says. */
  function EnterS(x: Machine, b: Board): (r: Machine) {
    var h := x.hart;
    var s := Slots(Wrap(x.s.count + 1), h.scause, h.sepc, h.spp, x.s.cont, h.stval);
    if s.cont == 0 then x.(s := s, loc := Parked)
    else x.(s := s, hart := Sret(h.(sepc := s.cont)), loc := Where(s.cont, b))
  }

  /** m_trap_entry: count, record, continue in M-mode where slot 7 says. */
  function EnterM(x: Machine, b: Board): (r: Machine) {
    var h := x.hart;
    var m := Slots(Wrap(x.m.count + 1), h.mcause, h.mepc, h.mpp, x.m.cont, h.mtval);
    if m.cont == 0 then x.(m := m, loc := Parked)
    else x.(m := m, hart := Mret(h.(mepc := m.cont, mpp := M)), loc := Where(m.cont, b))
  }

  function TrapAt(x: Machine, pc: Word, cause: Word, tval: Word, b: Board): (r: Machine) {
    var h := x.hart.(pc := pc);
    var x' := x.(hart := Raise(h, cause, tval));
    if GoesToS(h, cause) then EnterS(x', b) else EnterM(x', b)
  }

  /** `sd` to va from S-mode at pc; `next` is where execution goes if it completes. */
  function StoreAt(x: Machine, pc: Word, va: Word, next: Loc, b: Board): (r: Machine) {
    match b.store(va)
    case Done(_) => x.(loc := next)
    case PageFault => TrapAt(x, pc, 15, va, b)
    case AccessFault => TrapAt(x, pc, 7, va, b)
  }

  // ---------- The program ----------

  function ControlStore(x: Machine, pc: Word, next: Loc, b: Board): (r: Machine) {
    if b.variant.DeniedStore? then StoreAt(x, pc, b.sites.scratch, next, b) else x
  }

  function RunPhaseA(x: Machine, b: Board): (r: Machine) {
    var x := x.(s := x.s.(cont := b.sites.ecallA), pcA := b.sites.storeA);
    var c := ControlStore(x, b.sites.storeA, PhaseA, b);
    if c.loc != PhaseA then c else StoreAt(c, b.sites.storeA, STORE_VA, EcallA, b)
  }

  function RunPhase2(x: Machine, b: Board): (r: Machine) {
    var md := b.legal(x.hart.medeleg, WithoutBit(x.hart.medeleg, b));
    x.(countA := x.m.count, causeA := x.m.cause, epcA := x.m.pc,
       m := x.m.(cont := b.sites.report), rbB := md,
       hart := x.hart.(medeleg := md, priv := S), loc := PhaseB)
  }

  function RunPhaseB(x: Machine, b: Board): (r: Machine) {
    var x := x.(pcB := b.sites.storeB);
    var c := ControlStore(x, b.sites.storeB, PhaseB, b);
    if c.loc != PhaseB then c else StoreAt(c, b.sites.storeB, STORE_VA, Parked, b)
  }

  function Failed(ok: bool): (n: nat) {
    if ok then 0 else 1
  }

  /** The report's eight checks on the phase-A record. */
  function FailedInA(x: Machine, b: Board): (n: nat) {
    Failed(Bit(x.rbA, Cause(b))) + Failed(x.s.count == 1) + Failed(x.s.cause == Cause(b)) +
    Failed(x.s.pc == x.pcA) + Failed(x.s.tval == STORE_VA) + Failed(x.s.pc != x.s.tval) +
    Failed(x.s.from == S) + Failed(x.countA == 1 && x.causeA == 9)
  }

  /** Its eight checks on the phase-B record; nothing can move the counts in the quiet window
      before the last. */
  function FailedInB(x: Machine, b: Board): (n: nat) {
    Failed(!Bit(x.rbB, Cause(b))) + Failed(x.m.count == 2) + Failed(x.m.cause == Cause(b)) +
    Failed(x.m.pc == x.pcB) + Failed(x.m.tval == STORE_VA) + Failed(x.m.from == S) +
    Failed(x.s.count == 1) + Failed(x.m.count == 2 && x.s.count == 1)
  }

  /** medeleg after the report's restore, where there is one. */
  function Restored(md: Word, boot: Word, b: Board): (v: Word) {
    if b.variant.DeniedStore? then b.legal(md, boot) else md
  }

  function RunReport(x: Machine, b: Board): (r: Machine) {
    var rb := Restored(x.hart.medeleg, x.boot, b);
    var fails := x.fails + Failed(rb == x.boot || b.variant.UnmappedStore?) + FailedInA(x, b) + FailedInB(x, b);
    x.(hart := x.hart.(medeleg := rb), fails := fails, loc := if fails == 0 then Passed else Parked)
  }

  function Step(x: Machine, b: Board): (r: Machine) {
    match x.loc
    case PhaseA => RunPhaseA(x, b)
    case EcallA => TrapAt(x, b.sites.ecallA, 9, 0, b)
    case Phase2 => RunPhase2(x, b)
    case PhaseB => RunPhaseB(x, b)
    case Report => RunReport(x, b)
    case _ => x
  }

  function Stepper(b: Board): (f: Machine -> Machine) {
    (x: Machine) => Step(x, b)
  }

  function Run(x: Machine, n: nat, b: Board): (r: Machine) {
    Iterate(Stepper(b), x, n)
  }

  /** After set-up: medeleg written with the fault's bit alone, the phase-2 continuation armed, dropped
      to S-mode; `fails` checks failed in set-up. */
  function Start(h: Hart, boot: Word, fails: nat, b: Board): (x: Machine) {
    var md := b.legal(boot, OnlyBit(b));
    Machine(PhaseA, h.(priv := S, medeleg := md),
            Slots(0, 0, 0, U, b.sites.phase2, 0), Slots(0, 0, 0, U, 0, 0),
            boot, md, 0, 0, 0, 0, 0, 0, fails)
  }

  predicate RestoreOk(md: Word, boot: Word, b: Board) {
    b.variant.DeniedStore? ==> b.legal(md, boot) == boot
  }

  /** The legalisation admits the bit, leaves S-mode ecalls in M-mode, and can be undone. */
  predicate Conforms(b: Board, boot: Word) {
    var a := b.legal(boot, OnlyBit(b));
    var c := b.legal(a, WithoutBit(a, b));
    Bit(a, Cause(b)) && !Bit(a, 9) && !Bit(c, Cause(b)) && RestoreOk(c, boot, b)
  }

  /** Both phases come down to one fault at the store page. */
  lemma PhaseATraps(x: Machine, b: Board)
    requires GoodBoard(b) && x.loc == PhaseA
    ensures var y := x.(s := x.s.(cont := b.sites.ecallA), pcA := b.sites.storeA);
            Step(x, b) == TrapAt(y, b.sites.storeA, Cause(b), STORE_VA, b)
  {
  }

  lemma PhaseBTraps(x: Machine, b: Board)
    requires GoodBoard(b) && x.loc == PhaseB
    ensures Step(x, b) == TrapAt(x.(pcB := b.sites.storeB), b.sites.storeB, Cause(b), STORE_VA, b)
  {
  }

  // ---------- The verdict ----------

  /** The program can no longer pass: a check failed or is bound to, or the phase-A ecall is
      delegated and loops in S-mode. */
  predicate Lost(x: Machine, b: Board) {
    && x.loc != Passed
    && (|| x.loc == Parked
        || x.fails > 0
        || !Bit(x.rbA, Cause(b))
        || (x.loc == EcallA && x.hart.priv == S && x.s.cont == b.sites.ecallA && Bit(x.hart.medeleg, 9))
        || (x.loc in {PhaseB, EcallA, Report} && x.m.cont == b.sites.report && Bit(x.rbB, Cause(b))))
  }

  lemma TrapExact(x: Machine, pc: Word, cause: Word, tval: Word, b: Board)
    requires x.hart.priv == S && cause < 64
    ensures var r := TrapAt(x, pc, cause, tval, b);
            var toS := Bit(x.hart.medeleg, cause);
            && r.hart.medeleg == x.hart.medeleg && r.fails == x.fails
            && r.rbA == x.rbA && r.rbB == x.rbB && r.m.cont == x.m.cont && r.s.cont == x.s.cont
            && r.boot == x.boot && r.pcA == x.pcA && r.pcB == x.pcB
            && r.countA == x.countA && r.causeA == x.causeA
            && (toS ==> r.m == x.m && r.s == Slots(Wrap(x.s.count + 1), cause, pc, S, x.s.cont, tval))
            && (!toS ==> r.s == x.s && r.m == Slots(Wrap(x.m.count + 1), cause, pc, S, x.m.cont, tval))
            && r.loc == (if toS then if x.s.cont == 0 then Parked else Where(x.s.cont, b)
                         else if x.m.cont == 0 then Parked else Where(x.m.cont, b))
            && (r.loc != Parked ==> r.hart.priv == if toS then S else M)
  {
  }

  /** What every reachable state keeps: S-mode code runs in S-mode, and the save areas hold
      continuations of this program. */
  predicate Held(x: Machine, b: Board) {
    && (x.loc in {PhaseA, EcallA, PhaseB} ==> x.hart.priv == S)
    && x.s.cont in {0, b.sites.ecallA}
    && x.m.cont in {b.sites.phase2, b.sites.report}
    && (x.loc in {PhaseB, Report} ==> x.m.cont == b.sites.report)
  }

  lemma LostStep(x: Machine, b: Board)
    requires GoodBoard(b) && Lost(x, b) && Held(x, b)
    ensures Lost(Step(x, b), b) && Held(Step(x, b), b)
  {
    match x.loc {
      case PhaseA =>
        var y := x.(s := x.s.(cont := b.sites.ecallA), pcA := b.sites.storeA);
        PhaseATraps(x, b);
        TrapExact(y, b.sites.storeA, Cause(b), STORE_VA, b);
      case EcallA =>
        TrapExact(x, b.sites.ecallA, 9, 0, b);
      case PhaseB =>
        var y := x.(pcB := b.sites.storeB);
        PhaseBTraps(x, b);
        TrapExact(y, b.sites.storeB, Cause(b), STORE_VA, b);
      case _ =>
    }
  }

  lemma {:induction false} LostRun(x: Machine, n: nat, b: Board)
    requires GoodBoard(b) && Lost(x, b) && Held(x, b)
    ensures Run(x, n, b).loc != Passed
    decreases n
  {
    if n > 0 {
      LostStep(x, b);
      LostRun(Step(x, b), n - 1, b);
    }
  }

  /** The run on course: nothing failed, and the S-mode record is the phase-A fault; `a` and `c`
      are what medeleg reads in phases A and B. */
  predicate OnCourse(x: Machine, loc: Loc, boot: Word, a: Word, c: Word, b: Board) {
    && x.loc == loc && Held(x, b) && x.fails == 0 && x.boot == boot && x.rbA == a && Bit(a, Cause(b))
    && x.pcA == b.sites.storeA && x.s == Slots(1, Cause(b), b.sites.storeA, S, b.sites.ecallA, STORE_VA)
    && match loc
       case EcallA => x.hart.medeleg == a && x.m == Slots(0, 0, 0, U, b.sites.phase2, 0)
       case Phase2 => x.hart.medeleg == a && x.m == Slots(1, 9, b.sites.ecallA, S, b.sites.phase2, 0)
       case PhaseB =>
         && x.hart.medeleg == x.rbB == c
         && x.m == Slots(1, 9, b.sites.ecallA, S, b.sites.report, 0) && x.countA == 1 && x.causeA == 9
       case Report =>
         && x.hart.medeleg == x.rbB == c && x.pcB == b.sites.storeB
         && x.m == Slots(2, Cause(b), b.sites.storeB, S, b.sites.report, STORE_VA) && x.countA == 1 && x.causeA == 9
       case _ => false
  }

  lemma PhaseAStep(h: Hart, boot: Word, fails: nat, c: Word, b: Board)
    requires GoodBoard(b)
    ensures var x := Start(h, boot, fails, b);
            var r := Step(x, b);
            if fails == 0 && Bit(x.rbA, Cause(b)) then OnCourse(r, EcallA, boot, x.rbA, c, b)
            else Lost(r, b) && Held(r, b)
  {
    var x := Start(h, boot, fails, b);
    PhaseATraps(x, b);
    var y := x.(s := x.s.(cont := b.sites.ecallA), pcA := b.sites.storeA);
    TrapExact(y, b.sites.storeA, Cause(b), STORE_VA, b);
  }

  lemma EcallStep(x: Machine, boot: Word, a: Word, c: Word, b: Board)
    requires GoodBoard(b) && OnCourse(x, EcallA, boot, a, c, b) && !Bit(x.rbA, 9)
    ensures OnCourse(Step(x, b), Phase2, boot, a, c, b)
  {
    TrapExact(x, b.sites.ecallA, 9, 0, b);
  }

  lemma Phase2Step(x: Machine, boot: Word, a: Word, c: Word, b: Board)
    requires GoodBoard(b) && OnCourse(x, Phase2, boot, a, c, b) && c == b.legal(a, WithoutBit(a, b))
    ensures OnCourse(Step(x, b), PhaseB, boot, a, c, b)
  {
  }

  lemma PhaseBArrives(x: Machine, boot: Word, a: Word, c: Word, b: Board)
    requires GoodBoard(b) && OnCourse(x, PhaseB, boot, a, c, b) && !Bit(x.rbB, Cause(b)) && x.pcB == b.sites.storeB
    ensures OnCourse(TrapAt(x, b.sites.storeB, Cause(b), STORE_VA, b), Report, boot, a, c, b)
  {
    TrapExact(x, b.sites.storeB, Cause(b), STORE_VA, b);
  }

  lemma PhaseBStep(x: Machine, boot: Word, a: Word, c: Word, b: Board)
    requires GoodBoard(b) && OnCourse(x, PhaseB, boot, a, c, b) && !Bit(x.rbB, Cause(b))
    ensures OnCourse(Step(x, b), Report, boot, a, c, b)
  {
    PhaseBTraps(x, b);
    PhaseBArrives(x.(pcB := b.sites.storeB), boot, a, c, b);
  }

  lemma ReportStep(x: Machine, boot: Word, a: Word, c: Word, b: Board)
    requires GoodBoard(b) && OnCourse(x, Report, boot, a, c, b) && !Bit(x.rbB, Cause(b))
    ensures var r := Step(x, b);
            && r.loc == (if RestoreOk(x.hart.medeleg, boot, b) then Passed else Parked)
            && r.s == x.s && r.m == x.m && Held(r, b)
  {
  }

  lemma {:induction false} Stopped(x: Machine, n: nat, b: Board)
    requires x.loc == Passed
    ensures Run(x, n, b) == x
    decreases n
  {
    if n > 0 {
      Stopped(x, n - 1, b);
    }
  }

  /** After any number of steps past the fifth, the program has passed if and only if set-up
      failed no check and medeleg legalises the bit in, S-mode ecalls out, the bit out again and,
      where the program restores it, the boot value back. A passing run took exactly one S-mode
      trap and two M-mode traps. */
  lemma TwoPhaseVerdict(h: Hart, boot: Word, fails: nat, b: Board, mem: nat -> Word, at: Placement, n: nat)
    requires SetUp(b, mem, at) && n >= 5
    ensures var r := Run(Start(h, boot, fails, b), n, b);
            && (r.loc == Passed <==> fails == 0 && Conforms(b, boot))
            && (r.loc == Passed ==> BothRoutesShown(r, b))
  {
    SetUpIsGood(b, mem, at);
    Verdict(h, boot, fails, b, n);
  }

  /** The records a passing run leaves: the S-mode handler took one trap, the phase-A fault, and the
      M-mode handler two, the last of them the phase-B fault; both with the fault's cause, the
      address of the store instruction, and 0x80080000 as the faulting address. */
  predicate BothRoutesShown(r: Machine, b: Board) {
    var cause := if b.variant.DeniedStore? then 7 else 15;
    && r.s == Slots(1, cause, b.sites.storeA, S, b.sites.ecallA, 0x8008_0000)
    && r.m == Slots(2, cause, b.sites.storeB, S, b.sites.report, 0x8008_0000)
  }

  /** A medeleg that keeps the implemented bits of what is written. */
  ghost predicate Keeps(b: Board, mask: Word) {
    forall o: Word, v: Word :: b.legal(o, v) == And(v, mask)
  }

  lemma OrdinaryMedelegConforms(b: Board, mask: Word, boot: Word)
    requires Keeps(b, mask) && Bit(mask, Cause(b)) && And(boot, mask) == boot
    ensures Conforms(b, boot)
  {
    var a := And(OnlyBit(b), mask);
    OnlyBitExact(b, Cause(b));
    OnlyBitExact(b, 9);
    AndBit(OnlyBit(b), mask, Cause(b));
    AndBit(OnlyBit(b), mask, 9);
    WithoutBitExact(a, b, Cause(b));
    AndBit(WithoutBit(a, b), mask, Cause(b));
  }

  /** On a hart whose medeleg implements the fault's bit, and boots with implemented bits only, either
      program whose set-up failed no check ends Passed with both routes shown. */
  lemma OrdinaryMedelegPasses(h: Hart, boot: Word, b: Board, mask: Word, mem: nat -> Word, at: Placement, n: nat)
    requires SetUp(b, mem, at) && n >= 5
    requires Keeps(b, mask) && Bit(mask, if b.variant.DeniedStore? then 7 else 15) && And(boot, mask) == boot
    ensures var r := Run(Start(h, boot, 0, b), n, b); r.loc == Passed && BothRoutesShown(r, b)
  {
    OrdinaryMedelegConforms(b, mask, boot);
    TwoPhaseVerdict(h, boot, 0, b, mem, at, n);
  }

  lemma Verdict(h: Hart, boot: Word, fails: nat, b: Board, n: nat)
    requires GoodBoard(b) && n >= 5
    ensures var r := Run(Start(h, boot, fails, b), n, b);
            && (r.loc == Passed <==> fails == 0 && Conforms(b, boot))
            && (r.loc == Passed ==> BothRoutesShown(r, b))
  {
    var x0 := Start(h, boot, fails, b);
    var a := x0.rbA;
    var c := b.legal(a, WithoutBit(a, b));
    PhaseAStep(h, boot, fails, c, b);
    var x1 := Step(x0, b);
    if fails != 0 || !Bit(x0.rbA, Cause(b)) {
      LostRun(x1, n - 1, b);
    } else if Bit(x0.rbA, 9) {
      LostRun(x1, n - 1, b);
    } else {
      EcallStep(x1, boot, a, c, b);
      var x2 := Step(x1, b);
      Phase2Step(x2, boot, a, c, b);
      var x3 := Step(x2, b);
      AfterPhase2(x3, boot, a, c, b, n - 3);
      assert Run(x0, n, b) == Run(x1, n - 1, b) == Run(x2, n - 2, b) == Run(x3, n - 3, b);
    }
  }

  lemma AfterPhase2(x: Machine, boot: Word, a: Word, c: Word, b: Board, n: nat)
    requires GoodBoard(b) && OnCourse(x, PhaseB, boot, a, c, b) && n >= 2
    ensures var r := Run(x, n, b);
            && (r.loc == Passed <==> !Bit(x.rbB, Cause(b)) && RestoreOk(x.rbB, boot, b))
            && (r.loc == Passed ==> BothRoutesShown(r, b))
  {
    if Bit(x.rbB, Cause(b)) {
      LostRun(x, n, b);
    } else {
      PhaseBStep(x, boot, a, c, b);
      var y := Step(x, b);
      ReportStep(y, boot, a, c, b);
      var z := Step(y, b);
      assert Run(x, n, b) == Run(y, n - 1, b) == Run(z, n - 2, b);
      if z.loc == Passed {
        Stopped(z, n - 2, b);
      } else {
        LostRun(z, n - 2, b);
      }
    }
  }
}
