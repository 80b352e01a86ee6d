/**
 The three U-mode payloads of the mcounteren.TM experiment, run on a hart whose rdtime is
 gated by mcounteren.TM and scounteren.TM. Composed with the handlers, the whole program
 passes exactly when the timer ticks within the payloads' spin bound.
 */
module TimeGatePayload {
  import opened Words
  import opened TimeGate
  import opened TimeGateSoundness

  const SIG_A_TIMEOUT: Word := 0xa1e1
  const SIG_C_TIMEOUT: Word := 0xa3e1

  /** Register contents a payload neither sets nor reads. */
  datatype Ambient = Ambient(stval: Word, t0: Word, a0: Word, t1: Word, s0: Word)

  /** The board around the handlers: the values successive retired rdtimes return, the ambient
      registers at each trap, the unlabelled ecalls of the timeout paths, and the number of
      re-reads the payloads allow (0x100000 in the source). */
  datatype Board = Board(clock: nat -> Word, ambient: nat -> Ambient, timeoutA: Word, timeoutC: Word, bound: nat)

  predicate DistinctSites(sites: Sites) {
    && sites.payloadA != sites.payloadB && sites.payloadA != sites.payloadC && sites.payloadB != sites.payloadC
    && Wrap(sites.rdtimeB + 4) != sites.payloadA && Wrap(sites.rdtimeB + 4) != sites.payloadB
    && Wrap(sites.rdtimeB + 4) != sites.payloadC
  }

  /** rdtime retires in U-mode iff both gates are open. */
  predicate RdtimeRetires(s: State) {
    TmSet(s.mc) && TmSet(s.sc)
  }

  /** The re-read loop for the sample taken as read number `k`: read `m` was the latest, `left`
      more re-reads are allowed. The number of the last read made, the first that differs from
      the sample if one does within the bound. */
  function Spin(clock: nat -> Word, k: nat, m: nat, left: nat): (r: nat)
    ensures m <= r <= m + left
    ensures forall i: nat :: m < i < r ==> clock(i) == clock(k)
    ensures r < m + left ==> m < r && clock(r) != clock(k)
    decreases left
  {
    if left == 0 then m
    else if clock(m + 1) != clock(k) then m + 1
    else Spin(clock, k, m + 1, left - 1)
  }

  /** The payload reached an ecall or a trap: what the handlers see, and how many rdtimes
      retired on the way. */
  datatype Outcome = Outcome(trap: UTrap, retired: nat)

  function Sampling(b: Board, k: nat, amb: Ambient, sig: Word, site: Word, toSig: Word, toSite: Word): (o: Outcome) {
    var m := Spin(b.clock, k, k, b.bound);
    var t0, t1 := b.clock(k), b.clock(m);
    if t1 != t0 then Outcome(Frame(8, amb.stval, site, t0, sig, t1, amb.s0), m + 1 - k)
    else Outcome(Frame(8, amb.stval, toSite, t0, toSig, t1, amb.s0), m + 1 - k)
  }

  /** U-mode from `pc` to its next trap; None where no payload code lives. `k` rdtimes have
      retired so far and `n` traps been taken. */
  function Payload(s: State, pc: Word, b: Board, k: nat, n: nat, sites: Sites): (o: seq<Outcome>)
    ensures |o| <= 1
  {
    var amb := b.ambient(n);
    if pc == sites.payloadA then
      if RdtimeRetires(s) then [Sampling(b, k, amb, SIG_A, sites.ecallA, SIG_A_TIMEOUT, b.timeoutA)]
      else [Outcome(Frame(2, amb.stval, sites.payloadA, amb.t0, amb.a0, amb.t1, amb.s0), 0)]
    else if pc == sites.payloadB then
      if RdtimeRetires(s) then [Outcome(Frame(8, amb.stval, sites.ecallB, b.clock(k), SIG_B, amb.t1, amb.s0), 1)]
      else [Outcome(Frame(2, amb.stval, sites.rdtimeB, SENTINEL, amb.a0, amb.t1, amb.s0), 0)]
    else if pc == Wrap(sites.rdtimeB + 4) then
      [Outcome(Frame(8, amb.stval, sites.ecallB, SENTINEL, SIG_B, amb.t1, amb.s0), 0)]
    else if pc == sites.payloadC then
      if RdtimeRetires(s) then [Sampling(b, k, amb, SIG_C, sites.ecallC, SIG_C_TIMEOUT, b.timeoutC)]
      else [Outcome(Frame(2, amb.stval, sites.payloadC, amb.t0, amb.a0, amb.t1, amb.s0), 0)]
    else []
  }

  /** The traps the payloads raise, each served before the next is computed. */
  function PayloadTraps(s: State, k: nat, n: nat, fuel: nat, h: Hart, b: Board, sites: Sites): (traps: seq<UTrap>)
    decreases fuel
  {
    if fuel == 0 || !s.loc.UMode? then [] else
    var o := Payload(s, s.loc.pc, b, k, n, sites);
    if o == [] then []
    else [o[0].trap] + PayloadTraps(Serve(s, o[0].trap, h, sites), k + o[0].retired, n + 1, fuel - 1, h, b, sites)
  }

  /** The timer ticks for a payload whose first sample is read `k`: the sample is not zero, and
      the first different re-read comes within the bound and is larger. */
  ghost predicate Ticks(clock: nat -> Word, k: nat, bound: nat) {
    && clock(k) != 0
    && exists m: nat ::
         && k < m <= k + bound
         && clock(m) > clock(k)
         && forall i: nat :: k < i < m ==> clock(i) == clock(k)
  }

  /** The number of rdtimes phase A retires, which is where phase C's reads start. */
  function PhaseCStart(b: Board): (k: nat) {
    Spin(b.clock, 0, 0, b.bound) + 1
  }

  /** The timer ticks in both sampling phases. */
  ghost predicate BothTick(b: Board) {
    Ticks(b.clock, 0, b.bound) && Ticks(b.clock, PhaseCStart(b), b.bound)
  }

  lemma SamplingExact(b: Board, k: nat, amb: Ambient, sig: Word, site: Word, toSig: Word, toSite: Word)
    requires sig != toSig
    ensures GoodSample(Sampling(b, k, amb, sig, site, toSig, toSite).trap, site, sig) <==> Ticks(b.clock, k, b.bound)
  {
    var m := Spin(b.clock, k, k, b.bound);
    if Ticks(b.clock, k, b.bound) {
      var i: nat :| k < i <= k + b.bound && b.clock(i) > b.clock(k)
                    && forall l: nat :: k < l < i ==> b.clock(l) == b.clock(k);
      assert m == i;
    }
  }

  lemma Resumption(s: State, f: UTrap, h: Hart, sites: Sites)
    requires s.loc.UMode?
    ensures var r := Serve(s, f, h, sites);
            r.loc.UMode? ==>
              r.loc.pc == if f.cause == 2 && ToSMode(s, f) then Wrap(f.epc + 4)
                          else if s.mPhase == 0 then sites.payloadB else sites.payloadC
  {
    if ToSMode(s, f) {
      var d := Dispatch(s, f, sites);
      if d.loc.Continuation? {
        ContinueExact(d, d.loc.phase, sites);
      }
    }
  }

  lemma TmIsTm()
    ensures TmSet(TM)
  {
    assert Pow2(1) == 2 * Pow2(0);
  }

  /** A sampling payload whose timer does not move within its bound ends in its timeout ecall, which
      the dispatcher does not know: it parks with the payload's own timeout signature. */
  lemma TimeoutParks(s: State, k: nat, n: nat, h: Hart, b: Board, sites: Sites)
    requires DistinctSites(sites) && s.loc.UMode? && RdtimeRetires(s) && Bit(s.md, 8)
    requires s.loc.pc == sites.payloadA || s.loc.pc == sites.payloadC
    requires forall i: nat :: k <= i <= k + b.bound ==> b.clock(i) == b.clock(k)
    ensures var o := Payload(s, s.loc.pc, b, k, n, sites);
            && |o| == 1
            && var r := Serve(s, o[0].trap, h, sites);
               r.loc.Parked? && r.badCause == 8 && r.badSig == if s.loc.pc == sites.payloadA then 0xa1e1 else 0xa3e1
  {
    var m := Spin(b.clock, k, k, b.bound);
    assert b.clock(m) == b.clock(k);
  }

  lemma PhaseCTraps(s: State, k: nat, h: Hart, b: Board, sites: Sites, boot: BootCsrs,
                    a: Frame, g: Frame, c: Frame, n: nat)
    requires Conforms(h, boot) && DistinctSites(sites) && n >= 1
    requires OnCourse(s, 2, [a, g, c], 26, h, boot) && s.loc.pc == sites.payloadC
    ensures var traps := PayloadTraps(s, k, 3, n, h, b, sites);
            |traps| >= 1 && (GoodSample(traps[0], sites.ecallC, SIG_C) <==> Ticks(b.clock, k, b.bound))
  {
    TmIsTm();
    SamplingExact(b, k, b.ambient(3), SIG_C, sites.ecallC, SIG_C_TIMEOUT, b.timeoutC);
  }

  lemma ClosingTraps(s: State, k: nat, h: Hart, b: Board, sites: Sites, boot: BootCsrs, a: Frame, g: Frame, n: nat)
    requires Conforms(h, boot) && DistinctSites(sites) && n >= 2
    requires OnCourse(s, 1, [a, g], 15, h, boot) && GoodGated(g, sites) && s.loc.pc == Wrap(sites.rdtimeB + 4)
    ensures var traps := PayloadTraps(s, k, 2, n, h, b, sites);
            && |traps| >= 2 && GoodClosing(traps[0], sites)
            && (GoodSample(traps[1], sites.ecallC, SIG_C) <==> Ticks(b.clock, k, b.bound))
  {
    var f := Payload(s, s.loc.pc, b, k, 2, sites)[0].trap;
    ClosingStep(s, f, h, sites, boot, a, g);
    Resumption(s, f, h, sites);
    PhaseCTraps(Serve(s, f, h, sites), k, h, b, sites, boot, a, g, f, n - 1);
  }

  /** From the start of phase B on, the payloads raise the gated trap, SIG_B and phase C's
      ecall, whatever the ambient registers hold. */
  lemma PhaseBTraps(s: State, k: nat, h: Hart, b: Board, sites: Sites, boot: BootCsrs, a: Frame, n: nat)
    requires Conforms(h, boot) && DistinctSites(sites) && n >= 3
    requires OnCourse(s, 1, [a], 15, h, boot) && s.loc.pc == sites.payloadB
    ensures var traps := PayloadTraps(s, k, 1, n, h, b, sites);
            && |traps| >= 3
            && GoodGated(traps[0], sites) && GoodClosing(traps[1], sites)
            && (GoodSample(traps[2], sites.ecallC, SIG_C) <==> Ticks(b.clock, k, b.bound))
  {
    var f := Payload(s, s.loc.pc, b, k, 1, sites)[0].trap;
    GatedStep(s, f, h, sites, boot, a);
    Resumption(s, f, h, sites);
    assert ToSMode(s, f);
    ClosingTraps(Serve(s, f, h, sites), k, h, b, sites, boot, a, f, n - 1);
  }

  lemma FirstTrap(h: Hart, boot: BootCsrs, b: Board, sites: Sites, n: nat) returns (o: Outcome)
    requires Conforms(h, boot) && DistinctSites(sites) && n >= 1
    ensures var s := Boot(h, sites, boot);
            && OnCourse(s, 0, [], 5, h, boot)
            && (GoodSample(o.trap, sites.ecallA, SIG_A) <==> Ticks(b.clock, 0, b.bound))
            && o.retired == PhaseCStart(b)
            && PayloadTraps(s, 0, 0, n, h, b, sites)
               == [o.trap] + PayloadTraps(Serve(s, o.trap, h, sites), o.retired, 1, n - 1, h, b, sites)
  {
    TmIsTm();
    var s := Boot(h, sites, boot);
    BootStep(h, sites, boot);
    SamplingExact(b, 0, b.ambient(0), SIG_A, sites.ecallA, SIG_A_TIMEOUT, b.timeoutA);
    o := Payload(s, s.loc.pc, b, 0, 0, sites)[0];
  }

  lemma TrapsAfterA(s: State, f: UTrap, k: nat, h: Hart, b: Board, sites: Sites, boot: BootCsrs, n: nat)
    requires Conforms(h, boot) && DistinctSites(sites) && n >= 3
    requires OnCourse(s, 0, [], 5, h, boot) && GoodSample(f, sites.ecallA, SIG_A)
    ensures var traps := PayloadTraps(Serve(s, f, h, sites), k, 1, n, h, b, sites);
            && |traps| >= 3
            && GoodGated(traps[0], sites) && GoodClosing(traps[1], sites)
            && (GoodSample(traps[2], sites.ecallC, SIG_C) <==> Ticks(b.clock, k, b.bound))
  {
    PhaseAStep(s, f, h, sites, boot);
    Resumption(s, f, h, sites);
    PhaseBTraps(Serve(s, f, h, sites), k, h, b, sites, boot, f, n);
  }

  lemma ProgramTraps(h: Hart, boot: BootCsrs, b: Board, sites: Sites, n: nat)
    requires Conforms(h, boot) && DistinctSites(sites) && n >= 4
    ensures var traps := PayloadTraps(Boot(h, sites, boot), 0, 0, n, h, b, sites);
            GoodTraps(traps, sites) <==> BothTick(b)
  {
    var s := Boot(h, sites, boot);
    var o := FirstTrap(h, boot, b, sites, n);
    if Ticks(b.clock, 0, b.bound) {
      TrapsAfterA(s, o.trap, o.retired, h, b, sites, boot, n - 1);
    }
  }

  /** Where the whole program, handlers and payloads together, ends after at most n traps. */
  function ProgramEnd(h: Hart, boot: BootCsrs, b: Board, sites: Sites, n: nat): (r: State) {
    var s := Boot(h, sites, boot);
    Run(s, PayloadTraps(s, 0, 0, n, h, b, sites), h, sites)
  }

  /** On a conforming hart the whole program, handlers and payloads together, reaches PASS if
      and only if the timer ticks in both sampling phases. */
  lemma ProgramPassesIffTimerTicks(h: Hart, boot: BootCsrs, b: Board, sites: Sites, n: nat)
    requires Conforms(h, boot) && DistinctSites(sites) && n >= 4
    ensures var r := ProgramEnd(h, boot, b, sites, n);
            && (r.loc.Passed? <==> BothTick(b))
            && (r.loc.Passed? ==> r.tally == Tally(0, PASS_FEED))
  {
    VerdictSound(h, sites, boot, PayloadTraps(Boot(h, sites, boot), 0, 0, n, h, b, sites));
    ProgramTraps(h, boot, b, sites, n);
  }

  /** The reads of one sampling phase: its sample is read k, its last possible re-read k + bound. */
  ghost predicate NeverBackward(clock: nat -> Word, k: nat, bound: nat) {
    forall i: nat, j: nat | k <= i <= j <= k + bound :: Ordered(clock, i, j)
  }

  predicate Ordered(clock: nat -> Word, i: nat, j: nat) {
    clock(i) <= clock(j)
  }

  /** A timer that never runs backward ticks exactly if it is not zero and has moved by the last
      re-read the bound allows. */
  lemma TicksIffMoved(clock: nat -> Word, k: nat, bound: nat)
    requires NeverBackward(clock, k, bound)
    ensures Ticks(clock, k, bound) <==> Moved(clock, k, bound)
  {
    var m := Spin(clock, k, k, bound);
    if clock(k) != 0 && clock(k) != clock(k + bound) {
      assert Ordered(clock, k, m) && clock(m) != clock(k);
    }
    if Ticks(clock, k, bound) {
      var i: nat :| k < i <= k + bound && clock(i) > clock(k);
      assert Ordered(clock, i, k + bound);
    }
  }

  /** The timer is not zero at the sample and has moved by the last re-read. */
  predicate Moved(clock: nat -> Word, k: nat, bound: nat) {
    clock(k) != 0 && clock(k) != clock(k + bound)
  }

  /** Neither sampling phase sees the timer run backward. */
  ghost predicate SteadyTimer(b: Board) {
    NeverBackward(b.clock, 0, b.bound) && NeverBackward(b.clock, PhaseCStart(b), b.bound)
  }

  lemma SteadyTicks(b: Board)
    requires SteadyTimer(b)
    ensures BothTick(b) <==> Moved(b.clock, 0, b.bound) && Moved(b.clock, PhaseCStart(b), b.bound)
  {
    TicksIffMoved(b.clock, 0, b.bound);
    TicksIffMoved(b.clock, PhaseCStart(b), b.bound);
  }

  /** With a timer that never runs backward during the two sampling phases, the program passes
      exactly if the timer is not zero at either sample and moves within the bound after each. */
  lemma MonotoneTimerPassesIff(h: Hart, boot: BootCsrs, b: Board, sites: Sites, n: nat)
    requires Conforms(h, boot) && DistinctSites(sites) && n >= 4 && SteadyTimer(b)
    ensures ProgramEnd(h, boot, b, sites, n).loc.Passed?
       <==> Moved(b.clock, 0, b.bound) && Moved(b.clock, PhaseCStart(b), b.bound)
  {
    SteadyTicks(b);
    ProgramPassesIffTimerTicks(h, boot, b, sites, n);
  }

  /** In particular a nonzero timer that advances over the four reads the program then makes. */
  lemma AdvancingTimerPasses(h: Hart, boot: BootCsrs, b: Board, sites: Sites, n: nat)
    requires Conforms(h, boot) && DistinctSites(sites) && n >= 4
    requires b.bound > 0
    requires 0 != b.clock(0) < b.clock(1) < b.clock(2) < b.clock(3)
    ensures ProgramEnd(h, boot, b, sites, n).loc.Passed?
  {
    ProgramPassesIffTimerTicks(h, boot, b, sites, n);
    assert PhaseCStart(b) == 2;
  }
}
