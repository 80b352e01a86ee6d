/**
 The three-phase mcounteren.TM experiment as a state machine: an S-mode dispatcher that
 records every delegated trap and picks a continuation, three S-mode continuations that
 check the record, and an M-mode handler that advances the phase, toggles the gate,
 restores the CSRs and writes the verdict.

 U-mode is unconstrained: any trap with any cause (other than 9, which the architecture
 reserves for S-mode), any pc and any registers may arrive whenever U-mode runs. The hart
 is unconstrained too: a CSR write is legalised by an arbitrary function.
 */
module TimeGate {
  import opened Words

  const SIG_A: Word := 0xa1a1
  const SIG_B: Word := 0xa2a2
  const SIG_C: Word := 0xa3a3
  const SENTINEL: Word := 0xDEAD_BEEF_DEAD_BEEF
  const HISTORY_SIZE: nat := 8
  const TM: Word := 2             // the TM bit of mcounteren and of scounteren
  const DELEGATED: Word := 0x104  // medeleg: illegal instruction and U-mode ecall

  /** Addresses the linker resolves. */
  datatype Sites = Sites(
    payloadA: Word, ecallA: Word,
    payloadB: Word, rdtimeB: Word, ecallB: Word,
    payloadC: Word, ecallC: Word,
    doneA: Word, doneB: Word, doneC: Word, unexpected: Word,
    sEcall: Word)

  /** What the hart reads back after `csrw csr, v` when the CSR held `old`. */
  datatype Hart = Hart(
    mcounteren: (Word, Word) -> Word,
    scounteren: (Word, Word) -> Word,
    medeleg: (Word, Word) -> Word)

  datatype BootCsrs = BootCsrs(mc: Word, sc: Word, md: Word)

  /** What a trap out of U-mode presents to the handlers. */
  datatype Frame = Frame(cause: Word, stval: Word, epc: Word, t0: Word, a0: Word, t1: Word, s0: Word)

  /** Cause 9 is an ecall from S-mode, so U-mode cannot raise it. */
  type UTrap = f: Frame | f.cause != 9 witness Frame(8, 0, 0, 0, 0, 0, 0)

  /** One history row: the nine words of the S-mode trap record. */
  datatype Row = Row(frame: Frame, count: Word, resume: Word)

  datatype Phase = A | B | C

  datatype Loc =
    | UMode(pc: Word)
    | Continuation(phase: Phase)  // S-mode, about to run the phase's checks
    | Handoff                     // S-mode, at the handoff ecall
    | Parked                      // wfi loop after RESULT: FAIL
    | Passed                      // finisher word written

  /** Failed checks, and the values fed to the verdict checksum. */
  datatype Tally = Tally(fails: nat, fed: seq<Word>)

  datatype State = State(
    loc: Loc,
    trapCount: Word, resume: Word,
    hist: seq<Row>,
    badCause: Word, badSig: Word,
    mPhase: nat, mTraps: nat,
    mc: Word, sc: Word, md: Word,
    boot: BootCsrs,
    tally: Tally)

  function Flag(ok: bool): (w: Word) {
    if ok then 1 else 0
  }

  /** `check(ok, ...)` followed by `cks_feed(v)`. */
  function Check(t: Tally, ok: bool, v: Word): (r: Tally) {
    Tally(if ok then t.fails else t.fails + 1, t.fed + [v])
  }

  function CheckFlag(t: Tally, ok: bool): (r: Tally) {
    Check(t, ok, Flag(ok))
  }

  predicate TmSet(csr: Word) {
    Bit(csr, 1)
  }

  // ---------- M-mode set-up ----------

  function Boot(h: Hart, sites: Sites, boot: BootCsrs): (s: State) {
    var probe := h.mcounteren(boot.mc, 7);
    var mc := h.mcounteren(probe, TM);
    var sc := h.scounteren(boot.sc, TM);
    var md := h.medeleg(boot.md, DELEGATED);
    var t := Tally(0, []);
    var t := Check(t, boot.mc == 0, boot.mc);
    var t := Check(t, probe == 7, probe);
    var t := CheckFlag(t, TmSet(mc));
    var t := Check(t, sc == TM, sc);
    var t := CheckFlag(t, Bit(md, 2) && Bit(md, 8));
    State(UMode(sites.payloadA), 0, 0, [], 0, 0, 0, 0, mc, sc, md, boot, t)
  }

  // ---------- S-mode trap entry and dispatcher ----------

  function Record(s: State, f: Frame): (r: State) {
    var count := Wrap(s.trapCount + 1);
    var hist := if |s.hist| < HISTORY_SIZE then s.hist + [Row(f, count, s.resume)] else s.hist;
    s.(trapCount := count, hist := hist)
  }

  function Dispatch(s: State, f: Frame, sites: Sites): (r: State) {
    var s := Record(s, f);
    if f.cause == 2 then
      s.(resume := Wrap(f.epc + 4), loc := UMode(Wrap(f.epc + 4)))
    else if f.cause == 8 && f.a0 == SIG_A then
      s.(resume := sites.doneA, loc := Continuation(A))
    else if f.cause == 8 && f.a0 == SIG_B then
      s.(resume := sites.doneB, loc := Continuation(B))
    else if f.cause == 8 && f.a0 == SIG_C then
      s.(resume := sites.doneC, loc := Continuation(C))
    else
      s.(badCause := f.cause, badSig := f.a0, resume := sites.unexpected, loc := Parked)
  }

  // ---------- S-mode continuations ----------

  /** Row i of the history array; rows never written read as zero. */
  function RowAt(s: State, i: nat): (f: Frame) {
    if i < |s.hist| then s.hist[i].frame else Frame(0, 0, 0, 0, 0, 0, 0)
  }

  /** The six checks phases A and C share: an ecall row carrying two samples. */
  function SampleChecks(t: Tally, countOk: bool, f: Frame, site: Word, sig: Word): (r: Tally) {
    var t := CheckFlag(t, countOk);
    var t := Check(t, f.cause == 8, f.cause);
    var t := CheckFlag(t, f.epc == site);
    var t := CheckFlag(t, f.a0 == sig);
    var t := CheckFlag(t, f.t1 > f.t0);
    CheckFlag(t, f.t0 != 0)
  }

  function GateChecks(t: Tally, countOk: bool, gated: Frame, closing: Frame, sites: Sites): (r: Tally) {
    var t := CheckFlag(t, countOk);
    var t := Check(t, gated.cause == 2, gated.cause);
    var t := CheckFlag(t, gated.epc == sites.rdtimeB);
    var t := CheckFlag(t, gated.t0 == SENTINEL);
    var t := Check(t, closing.cause == 8, closing.cause);
    var t := CheckFlag(t, closing.epc == sites.ecallB);
    CheckFlag(t, closing.a0 == SIG_B)
  }

  function Continue(s: State, p: Phase, sites: Sites): (r: State) {
    var n := |s.hist|;
    var t := match p
      case A => SampleChecks(s.tally, n == 1, RowAt(s, 0), sites.ecallA, SIG_A)
      case B => GateChecks(s.tally, n == 3, RowAt(s, 1), RowAt(s, 2), sites)
      case C => SampleChecks(s.tally, n == 4, RowAt(s, 3), sites.ecallC, SIG_C);
    s.(tally := t, loc := Handoff)
  }

  // ---------- M-mode handler ----------

  /** The trap entry's bookkeeping and the two checks that precede the phase switch. */
  function MEnter(s: State, mcause: Word, mepc: Word, sites: Sites): (r: State) {
    var t := Check(s.tally, mcause == 9, mcause);
    s.(mTraps := s.mTraps + 1, tally := CheckFlag(t, mepc == sites.sEcall))
  }

  /** Phases 0 and 1: write the gate, check it, move on unless something failed. */
  function Arm(s: State, mc: Word, gateOk: bool, next: Word): (r: State) {
    var t := CheckFlag(s.tally, s.sc == TM);
    var t := CheckFlag(t, gateOk);
    if t.fails != 0 then s.(mc := mc, tally := t, loc := Parked)
    else s.(mc := mc, tally := t, mPhase := s.mPhase + 1, loc := UMode(next))
  }

  /** Phase 2: restore the CSRs, check the readbacks, write the verdict. */
  function Restore(s: State, h: Hart): (r: State) {
    var mc := h.mcounteren(s.mc, s.boot.mc);
    var sc := h.scounteren(s.sc, s.boot.sc);
    var md := h.medeleg(s.md, s.boot.md);
    var t := CheckFlag(s.tally, mc == s.boot.mc);
    var t := CheckFlag(t, sc == s.boot.sc);
    var t := CheckFlag(t, md == s.boot.md);
    var t := CheckFlag(t, s.mTraps == 3);
    s.(mc := mc, sc := sc, md := md, tally := t, loc := if t.fails == 0 then Passed else Parked)
  }

  function MHandle(s: State, mcause: Word, mepc: Word, h: Hart, sites: Sites): (r: State) {
    var s := MEnter(s, mcause, mepc, sites);
    if s.mPhase == 0 then
      var mc := h.mcounteren(s.mc, 0);
      Arm(s, mc, !TmSet(mc), sites.payloadB)
    else if s.mPhase == 1 then
      var mc := h.mcounteren(s.mc, TM);
      Arm(s, mc, TmSet(mc), sites.payloadC)
    else if s.mPhase == 2 then
      Restore(s, h)
    else
      s.(loc := Parked)
  }

  /** The handoff ecall: cause 9 goes to M-mode unless the hart delegates it, in which case
      the dispatcher does not know the cause and parks. */
  function HandOff(s: State, h: Hart, sites: Sites): (r: State) {
    if Bit(s.md, 9) then s.(badCause := 9, loc := Parked)
    else MHandle(s, 9, sites.sEcall, h, sites)
  }

  // ---------- Runs ----------

  predicate ToSMode(s: State, f: Frame) {
    f.cause < 64 && Bit(s.md, f.cause)
  }

  /** One trap out of U-mode, served until U-mode runs again or the machine stops. */
  function Serve(s: State, f: UTrap, h: Hart, sites: Sites): (r: State) {
    if !s.loc.UMode? then s
    else if !ToSMode(s, f) then MHandle(s, f.cause, f.epc, h, sites)
    else
      var d := Dispatch(s, f, sites);
      if d.loc.Continuation? then HandOff(Continue(d, d.loc.phase, sites), h, sites) else d
  }

  function Run(s: State, traps: seq<UTrap>, h: Hart, sites: Sites): (r: State)
    decreases |traps|
  {
    if traps == [] then s
    else Run(Serve(s, traps[0], h, sites), traps[1..], h, sites)
  }

  // ---------- What a PASS means ----------

  predicate GoodSample(f: Frame, site: Word, sig: Word) {
    f.cause == 8 && f.epc == site && f.a0 == sig && f.t1 > f.t0 && f.t0 != 0
  }

  predicate GoodGated(f: Frame, sites: Sites) {
    f.cause == 2 && f.epc == sites.rdtimeB && f.t0 == 0xDEAD_BEEF_DEAD_BEEF
  }

  predicate GoodClosing(f: Frame, sites: Sites) {
    f.cause == 8 && f.epc == sites.ecallB && f.a0 == 0xa2a2
  }

  /** The hart behaves as the experiment needs it to: every readback check succeeds. */
  predicate Conforms(h: Hart, boot: BootCsrs) {
    var md := h.medeleg(boot.md, 0x104);
    var open := h.mcounteren(7, 2);
    var closed := h.mcounteren(open, 0);
    var reopened := h.mcounteren(closed, 2);
    && boot.mc == 0 && h.mcounteren(0, 7) == 7
    && TmSet(open) && !TmSet(closed) && TmSet(reopened) && h.mcounteren(reopened, 0) == 0
    && h.scounteren(boot.sc, 2) == 2 && h.scounteren(2, boot.sc) == boot.sc
    && Bit(md, 2) && Bit(md, 8) && !Bit(md, 9) && h.medeleg(md, boot.md) == boot.md
  }

  /** The four traps a PASS rests on, in order. */
  predicate GoodTraps(traps: seq<UTrap>, sites: Sites) {
    && |traps| >= 4
    && GoodSample(traps[0], sites.ecallA, 0xa1a1)
    && GoodGated(traps[1], sites)
    && GoodClosing(traps[2], sites)
    && GoodSample(traps[3], sites.ecallC, 0xa3a3)
  }

  /** What every passing run feeds to the checksum: one word per check, 38 of them. */
  const PASS_FEED: seq<Word> :=
    [0, 7, 1, 2, 1] +
    [1, 8, 1, 1, 1, 1] + [9, 1, 1, 1] +
    [1, 2, 1, 1, 8, 1, 1] + [9, 1, 1, 1] +
    [1, 8, 1, 1, 1, 1] + [9, 1, 1, 1, 1, 1]

  /** No continuation of the run can pass: a check failed, or the history is already too
      long for the handoffs still owed (the checks want them at lengths 1, 3 and 4). */
  predicate Doomed(s: State) {
    match s.loc
    case Parked => true
    case UMode(_) =>
      || s.tally.fails > 0
      || (s.mPhase == 0 && |s.hist| >= 1)
      || (s.mPhase == 1 && |s.hist| >= 3)
      || (s.mPhase == 2 && |s.hist| >= 4)
      || s.mPhase > 2
    case _ => false
  }
}
