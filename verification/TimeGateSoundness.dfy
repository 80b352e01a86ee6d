/**
 The verdict of the mcounteren.TM experiment is sound against every U-mode behaviour on
 every hart: PASS is written exactly when the hart's readbacks conform and U-mode's first
 four traps are the four the experiment expects.
 */
module TimeGateSoundness {
  import opened Words
  import opened TimeGate

  function Opened(h: Hart): (w: Word) {
    h.mcounteren(7, TM)
  }

  function Closed(h: Hart): (w: Word) {
    h.mcounteren(Opened(h), 0)
  }

  function Reopened(h: Hart): (w: Word) {
    h.mcounteren(Closed(h), TM)
  }

  function Delegation(h: Hart, boot: BootCsrs): (w: Word) {
    h.medeleg(boot.md, DELEGATED)
  }

  function Frames(hist: seq<Row>): (fs: seq<Frame>)
    ensures |fs| == |hist| && forall i :: 0 <= i < |hist| ==> fs[i] == hist[i].frame
  {
    seq(|hist|, i requires 0 <= i < |hist| => hist[i].frame)
  }

  /** A run on course after `phase` handoffs: nothing failed, the history holds `frames`. */
  predicate OnCourse(s: State, phase: nat, frames: seq<Frame>, fed: nat, h: Hart, boot: BootCsrs)
    requires fed <= |PASS_FEED|
  {
    && s.loc.UMode?
    && s.tally == Tally(0, PASS_FEED[..fed])
    && Frames(s.hist) == frames
    && s.mPhase == phase && s.mTraps == phase
    && s.mc == (if phase == 0 then Opened(h) else if phase == 1 then Closed(h) else Reopened(h))
    && s.sc == TM && s.md == Delegation(h, boot) && s.boot == boot
    && boot.mc == 0 && Bit(s.md, 2) && Bit(s.md, 8)
  }

  lemma SampleChecksExact(t: Tally, countOk: bool, f: Frame, site: Word, sig: Word)
    ensures var r := SampleChecks(t, countOk, f, site, sig);
            && r.fails >= t.fails
            && (r.fails == t.fails <==> countOk && GoodSample(f, site, sig))
            && (r.fails == t.fails ==> r.fed == t.fed + [1, 8, 1, 1, 1, 1])
  {
  }

  lemma GateChecksExact(t: Tally, countOk: bool, gated: Frame, closing: Frame, sites: Sites)
    ensures var r := GateChecks(t, countOk, gated, closing, sites);
            && r.fails >= t.fails
            && (r.fails == t.fails <==> countOk && GoodGated(gated, sites) && GoodClosing(closing, sites))
            && (r.fails == t.fails ==> r.fed == t.fed + [1, 2, 1, 1, 8, 1, 1])
  {
  }

  lemma Appended<T>(t: seq<T>, a: T, b: T, c: T, d: T, e: T, f: T, g: T)
    ensures t + [a] + [b] + [c] + [d] + [e] + [f] == t + [a, b, c, d, e, f]
    ensures t + [a] + [b] + [c] + [d] + [e] + [f] + [g] == t + [a, b, c, d, e, f, g]
  {
  }

  /** What the checks of phases A and C feed to the checksum, whether they hold or not. */
  lemma SampleChecksFeed(t: Tally, countOk: bool, f: Frame, site: Word, sig: Word)
    ensures SampleChecks(t, countOk, f, site, sig).fed
         == t.fed + [if countOk then 1 else 0, f.cause, if f.epc == site then 1 else 0,
                     if f.a0 == sig then 1 else 0, if f.t1 > f.t0 then 1 else 0, if f.t0 != 0 then 1 else 0]
  {
    var c, e: Word := if countOk then 1 else 0, if f.epc == site then 1 else 0;
    var s, o: Word := if f.a0 == sig then 1 else 0, if f.t1 > f.t0 then 1 else 0;
    var z: Word := if f.t0 != 0 then 1 else 0;
    Appended(t.fed, c, f.cause, e, s, o, z, 0);
  }

  /** And those of phase B. */
  lemma GateChecksFeed(t: Tally, countOk: bool, f: Frame, closing: Frame, sites: Sites)
    ensures GateChecks(t, countOk, f, closing, sites).fed
         == t.fed + [if countOk then 1 else 0, f.cause, if f.epc == sites.rdtimeB then 1 else 0,
                     if f.t0 == 0xDEAD_BEEF_DEAD_BEEF then 1 else 0, closing.cause,
                     if closing.epc == sites.ecallB then 1 else 0, if closing.a0 == 0xa2a2 then 1 else 0]
  {
    var c, e: Word := if countOk then 1 else 0, if f.epc == sites.rdtimeB then 1 else 0;
    var s, o: Word := if f.t0 == 0xDEAD_BEEF_DEAD_BEEF then 1 else 0, if closing.epc == sites.ecallB then 1 else 0;
    var z: Word := if closing.a0 == 0xa2a2 then 1 else 0;
    Appended(t.fed, c, f.cause, e, s, closing.cause, o, z);
  }

  /** What a handoff does to the M-mode phase, whatever the cause that got there. */
  lemma MHandleExact(s: State, mcause: Word, mepc: Word, h: Hart, sites: Sites)
    ensures var r := MHandle(s, mcause, mepc, h, sites);
            && !r.loc.Continuation? && !r.loc.Handoff?
            && r.hist == s.hist
            && (r.loc.Passed? ==> s.mPhase == 2 && s.tally.fails == 0 && mcause == 9)
            && (r.loc.UMode? ==> s.mPhase < 2 && r.mPhase == s.mPhase + 1 && s.tally.fails == 0 && mcause == 9)
  {
  }

  function Want(p: Phase): (n: nat) {
    match p case A => 1 case B => 3 case C => 4
  }

  function Signal(p: Phase): (w: Word) {
    match p case A => SIG_A case B => SIG_B case C => SIG_C
  }

  /** The rows a continuation looks at are the ones its phase needs. */
  predicate GoodRows(d: State, p: Phase, sites: Sites) {
    match p
    case A => GoodSample(RowAt(d, 0), sites.ecallA, SIG_A)
    case B => GoodGated(RowAt(d, 1), sites) && GoodClosing(RowAt(d, 2), sites)
    case C => GoodSample(RowAt(d, 3), sites.ecallC, SIG_C)
  }

  lemma ContinueExact(d: State, p: Phase, sites: Sites)
    ensures var r := Continue(d, p, sites);
            && r == d.(tally := r.tally, loc := Handoff)
            && r.tally.fails >= d.tally.fails
            && (r.tally.fails == d.tally.fails <==> |d.hist| == Want(p) && GoodRows(d, p, sites))
  {
    match p {
      case A => SampleChecksExact(d.tally, |d.hist| == 1, RowAt(d, 0), sites.ecallA, SIG_A);
      case B => GateChecksExact(d.tally, |d.hist| == 3, RowAt(d, 1), RowAt(d, 2), sites);
      case C => SampleChecksExact(d.tally, |d.hist| == 4, RowAt(d, 3), sites.ecallC, SIG_C);
    }
  }

  /** A trap from U-mode either resumes U-mode with one more row, or stops the machine, or
      completes a handoff, which takes a clean tally and the history length its phase wants. */
  lemma ServeExact(s: State, f: UTrap, h: Hart, sites: Sites)
    requires s.loc.UMode?
    ensures var r := Serve(s, f, h, sites);
            || r.loc.Parked?
            || (f.cause == 2 && ToSMode(s, f) && r == Dispatch(s, f, sites) && r.loc.UMode?)
            || exists p: Phase ::
                 && f.cause == 8 && f.a0 == Signal(p)
                 && s.tally.fails == 0 && !Bit(s.md, 9)
                 && r.hist == Record(s, f).hist && |r.hist| == Want(p) && GoodRows(Record(s, f), p, sites)
                 && ((r.loc.UMode? && s.mPhase < 2 && r.mPhase == s.mPhase + 1) || (r.loc.Passed? && s.mPhase == 2))
  {
    if !ToSMode(s, f) {
      MHandleExact(s, f.cause, f.epc, h, sites);
    } else {
      var d := Dispatch(s, f, sites);
      if d.loc.Continuation? {
        var p := d.loc.phase;
        var c := Continue(d, p, sites);
        ContinueExact(d, p, sites);
        MHandleExact(c, 9, sites.sEcall, h, sites);
        if !Serve(s, f, h, sites).loc.Parked? {
          assert f.cause == 8 && f.a0 == Signal(p);
          assert GoodRows(Record(s, f), p, sites);
        }
      }
    }
  }

  // ---------- The four steps of a passing run ----------

  lemma BootStep(h: Hart, sites: Sites, boot: BootCsrs)
    ensures var s := Boot(h, sites, boot);
            if boot.mc == 0 && h.mcounteren(0, 7) == 7 && TmSet(Opened(h))
               && h.scounteren(boot.sc, TM) == TM
               && Bit(Delegation(h, boot), 2) && Bit(Delegation(h, boot), 8)
            then OnCourse(s, 0, [], 5, h, boot)
            else Doomed(s)
  {
    assert PASS_FEED[..5] == [0, 7, 1, 2, 1];
  }

  lemma PhaseAStep(s: State, f: UTrap, h: Hart, sites: Sites, boot: BootCsrs)
    requires OnCourse(s, 0, [], 5, h, boot)
    ensures var r := Serve(s, f, h, sites);
            if GoodSample(f, sites.ecallA, SIG_A) && !Bit(s.md, 9) && !TmSet(Closed(h))
            then OnCourse(r, 1, [f], 15, h, boot)
            else Doomed(r)
  {
    assert PASS_FEED[..15] == PASS_FEED[..5] + [1, 8, 1, 1, 1, 1] + [9, 1, 1, 1];
    ServeExact(s, f, h, sites);
    if GoodSample(f, sites.ecallA, SIG_A) {
      var d := Dispatch(s, f, sites);
      SampleChecksExact(d.tally, true, f, sites.ecallA, SIG_A);
    }
  }

  lemma GatedStep(s: State, f: UTrap, h: Hart, sites: Sites, boot: BootCsrs, a: Frame)
    requires OnCourse(s, 1, [a], 15, h, boot)
    ensures var r := Serve(s, f, h, sites);
            if f.cause == 2 then OnCourse(r, 1, [a, f], 15, h, boot) else Doomed(r)
  {
    ServeExact(s, f, h, sites);
  }

  lemma ClosingStep(s: State, f: UTrap, h: Hart, sites: Sites, boot: BootCsrs, a: Frame, g: Frame)
    requires OnCourse(s, 1, [a, g], 15, h, boot)
    ensures var r := Serve(s, f, h, sites);
            if GoodGated(g, sites) && GoodClosing(f, sites) && !Bit(s.md, 9) && TmSet(Reopened(h))
            then OnCourse(r, 2, [a, g, f], 26, h, boot)
            else Doomed(r)
  {
    assert PASS_FEED[..26] == PASS_FEED[..15] + [1, 2, 1, 1, 8, 1, 1] + [9, 1, 1, 1];
    ServeExact(s, f, h, sites);
    if GoodGated(g, sites) && GoodClosing(f, sites) {
      var d := Dispatch(s, f, sites);
      GateChecksExact(d.tally, true, g, f, sites);
    }
  }

  predicate Restores(h: Hart, boot: BootCsrs) {
    && h.mcounteren(Reopened(h), 0) == 0
    && h.scounteren(TM, boot.sc) == boot.sc
    && h.medeleg(Delegation(h, boot), boot.md) == boot.md
  }

  /** The state a passing run ends in. */
  predicate Verdict(s: State, frames: seq<Frame>, boot: BootCsrs) {
    && s.loc.Passed?
    && s.tally == Tally(0, PASS_FEED)
    && Frames(s.hist) == frames
    && s.mTraps == 3
    && s.mc == boot.mc && s.sc == boot.sc && s.md == boot.md
  }

  lemma PhaseCStep(s: State, f: UTrap, h: Hart, sites: Sites, boot: BootCsrs, a: Frame, g: Frame, c: Frame)
    requires OnCourse(s, 2, [a, g, c], 26, h, boot)
    ensures var r := Serve(s, f, h, sites);
            if GoodSample(f, sites.ecallC, SIG_C) && !Bit(s.md, 9) && Restores(h, boot)
            then Verdict(r, [a, g, c, f], boot)
            else Doomed(r)
  {
    assert PASS_FEED == PASS_FEED[..26] + [1, 8, 1, 1, 1, 1] + [9, 1, 1, 1, 1, 1];
    ServeExact(s, f, h, sites);
    if GoodSample(f, sites.ecallC, SIG_C) {
      var d := Dispatch(s, f, sites);
      SampleChecksExact(d.tally, true, f, sites.ecallC, SIG_C);
    }
  }

  // ---------- A doomed run stays doomed ----------

  lemma DoomedStep(s: State, f: UTrap, h: Hart, sites: Sites)
    requires Doomed(s)
    ensures Doomed(Serve(s, f, h, sites))
  {
    if s.loc.UMode? {
      ServeExact(s, f, h, sites);
    }
  }

  lemma {:induction false} DoomedRun(s: State, traps: seq<UTrap>, h: Hart, sites: Sites)
    requires Doomed(s)
    ensures Doomed(Run(s, traps, h, sites))
    decreases |traps|
  {
    if traps != [] {
      DoomedStep(s, traps[0], h, sites);
      DoomedRun(Serve(s, traps[0], h, sites), traps[1..], h, sites);
    }
  }

  lemma {:induction false} PassedRun(s: State, traps: seq<UTrap>, h: Hart, sites: Sites)
    requires s.loc.Passed?
    ensures Run(s, traps, h, sites) == s
    decreases |traps|
  {
    if traps != [] {
      PassedRun(s, traps[1..], h, sites);
    }
  }

  // ---------- Main results ----------

  /** From the state after `frames`, the rest of the run passes exactly when the remaining
      good traps arrive in order. */
  lemma LastLeg(s: State, traps: seq<UTrap>, h: Hart, sites: Sites, boot: BootCsrs, a: Frame, g: Frame, c: Frame)
    requires OnCourse(s, 2, [a, g, c], 26, h, boot)
    ensures var r := Run(s, traps, h, sites);
            var good := |traps| >= 1 && GoodSample(traps[0], sites.ecallC, SIG_C) && !Bit(s.md, 9) && Restores(h, boot);
            && (r.loc.Passed? <==> good)
            && (good ==> Verdict(r, [a, g, c, traps[0]], boot))
  {
    if traps != [] {
      PhaseCStep(s, traps[0], h, sites, boot, a, g, c);
      var r := Serve(s, traps[0], h, sites);
      if Doomed(r) {
        DoomedRun(r, traps[1..], h, sites);
      } else {
        PassedRun(r, traps[1..], h, sites);
      }
    }
  }

  lemma MiddleLeg(s: State, traps: seq<UTrap>, h: Hart, sites: Sites, boot: BootCsrs, a: Frame)
    requires OnCourse(s, 1, [a], 15, h, boot)
    ensures var r := Run(s, traps, h, sites);
            var good :=
              && |traps| >= 3 && GoodGated(traps[0], sites) && GoodClosing(traps[1], sites)
              && GoodSample(traps[2], sites.ecallC, SIG_C)
              && !Bit(s.md, 9) && TmSet(Reopened(h)) && Restores(h, boot);
            && (r.loc.Passed? <==> good)
            && (good ==> Verdict(r, [a, traps[0], traps[1], traps[2]], boot))
  {
    if traps != [] {
      GatedStep(s, traps[0], h, sites, boot, a);
      var s1 := Serve(s, traps[0], h, sites);
      var rest := traps[1..];
      if Doomed(s1) {
        DoomedRun(s1, rest, h, sites);
      } else if rest != [] {
        ClosingStep(s1, rest[0], h, sites, boot, a, traps[0]);
        var s2 := Serve(s1, rest[0], h, sites);
        if Doomed(s2) {
          DoomedRun(s2, rest[1..], h, sites);
        } else {
          LastLeg(s2, rest[1..], h, sites, boot, a, traps[0], rest[0]);
        }
      }
    }
  }

  /** PASS is written if and only if every CSR readback conforms and the first four traps
      are the SIG_A ecall with two increasing samples, the illegal instruction at the phase-B
      rdtime with its destination untouched, the SIG_B ecall, and the SIG_C ecall with two
      increasing samples. The final history is then exactly those four rows, there were
      exactly three handoffs, no check failed, and the CSRs hold their boot values. */
  lemma VerdictSound(h: Hart, sites: Sites, boot: BootCsrs, traps: seq<UTrap>)
    ensures var r := Run(Boot(h, sites, boot), traps, h, sites);
            && (r.loc.Passed? <==> Conforms(h, boot) && GoodTraps(traps, sites))
            && (r.loc.Passed? ==> Verdict(r, traps[..4], boot))
  {
    var s := Boot(h, sites, boot);
    BootStep(h, sites, boot);
    if Doomed(s) {
      DoomedRun(s, traps, h, sites);
    } else if traps != [] {
      PhaseAStep(s, traps[0], h, sites, boot);
      var s1 := Serve(s, traps[0], h, sites);
      if Doomed(s1) {
        DoomedRun(s1, traps[1..], h, sites);
      } else {
        MiddleLeg(s1, traps[1..], h, sites, boot, traps[0]);
        if GoodTraps(traps, sites) {
          assert traps[..4] == [traps[0], traps[1], traps[2], traps[3]];
        }
      }
    }
  }

  /** In a passing run each row is recorded in its own phase: the SIG_A row before the first
      handoff, the two phase-B rows between the first and the second, the SIG_C row after. */
  lemma RowsFallInTheirPhases(h: Hart, sites: Sites, boot: BootCsrs, traps: seq<UTrap>)
    requires Run(Boot(h, sites, boot), traps, h, sites).loc.Passed?
    ensures |traps| >= 4
    ensures var s := Boot(h, sites, boot);
            && s.mPhase == 0
            && Run(s, traps[..1], h, sites).mPhase == 1
            && Run(s, traps[..2], h, sites).mPhase == 1
            && Run(s, traps[..3], h, sites).mPhase == 2
  {
    VerdictSound(h, sites, boot, traps);
    var s0 := Boot(h, sites, boot);
    BootStep(h, sites, boot);
    PhaseAStep(s0, traps[0], h, sites, boot);
    var s1 := Serve(s0, traps[0], h, sites);
    GatedStep(s1, traps[1], h, sites, boot, traps[0]);
    var s2 := Serve(s1, traps[1], h, sites);
    ClosingStep(s2, traps[2], h, sites, boot, traps[0], traps[1]);
    var s3 := Serve(s2, traps[2], h, sites);
    assert traps[..1] == [traps[0]] && traps[..2] == [traps[0]] + [traps[1]];
    assert traps[..3] == [traps[0]] + ([traps[1]] + [traps[2]]);
    assert Run(s0, traps[..1], h, sites) == Run(s1, [], h, sites);
    assert traps[..2][1..] == [traps[1]];
    assert Run(s0, traps[..2], h, sites) == Run(s1, [traps[1]], h, sites) == Run(s2, [], h, sites);
    assert traps[..3][1..] == [traps[1], traps[2]] && [traps[1], traps[2]][1..] == [traps[2]];
    assert Run(s0, traps[..3], h, sites) == Run(s1, [traps[1], traps[2]], h, sites);
    assert Run(s1, [traps[1], traps[2]], h, sites) == Run(s2, [traps[2]], h, sites) == Run(s3, [], h, sites);
  }

  /** Every passing run, on any hart and with any U-mode code, feeds the same 38 words to the
      checksum, so all passing runs print the same checksum. */
  lemma SameChecksumOnEveryPass(h1: Hart, sites1: Sites, boot1: BootCsrs, traps1: seq<UTrap>,
                                h2: Hart, sites2: Sites, boot2: BootCsrs, traps2: seq<UTrap>)
    requires Run(Boot(h1, sites1, boot1), traps1, h1, sites1).loc.Passed?
    requires Run(Boot(h2, sites2, boot2), traps2, h2, sites2).loc.Passed?
    ensures Run(Boot(h1, sites1, boot1), traps1, h1, sites1).tally.fed
         == Run(Boot(h2, sites2, boot2), traps2, h2, sites2).tally.fed
    ensures |Run(Boot(h1, sites1, boot1), traps1, h1, sites1).tally.fed| == 38
  {
    VerdictSound(h1, sites1, boot1, traps1);
    VerdictSound(h2, sites2, boot2, traps2);
  }

  /** The gate while U-mode runs and nothing has failed: TM open in phases 0 and 2, closed in
      phase 1, and the S-level gate open throughout. */
  predicate GateHeld(s: State) {
    s.loc.UMode? && s.tally.fails == 0 ==>
      s.mPhase <= 2 && (TmSet(s.mc) <==> s.mPhase != 1) && s.sc == TM
  }

  lemma GateHeldStep(s: State, f: UTrap, h: Hart, sites: Sites)
    requires GateHeld(s)
    ensures GateHeld(Serve(s, f, h, sites))
  {
    if s.loc.UMode? && ToSMode(s, f) {
      var d := Dispatch(s, f, sites);
      if d.loc.Continuation? {
        ContinueExact(d, d.loc.phase, sites);
        GateHeldHandoff(Continue(d, d.loc.phase, sites), 9, sites.sEcall, h, sites);
      }
    } else {
      GateHeldHandoff(s, f.cause, f.epc, h, sites);
    }
  }

  lemma GateHeldHandoff(s: State, mcause: Word, mepc: Word, h: Hart, sites: Sites)
    ensures GateHeld(MHandle(s, mcause, mepc, h, sites))
  {
  }

  lemma {:induction false} GateHeldRun(s: State, traps: seq<UTrap>, h: Hart, sites: Sites)
    requires GateHeld(s)
    ensures GateHeld(Run(s, traps, h, sites))
    decreases |traps|
  {
    if traps != [] {
      GateHeldStep(s, traps[0], h, sites);
      GateHeldRun(Serve(s, traps[0], h, sites), traps[1..], h, sites);
    }
  }

  /** Every state reachable from set-up, on any hart and under any U-mode code, holds the gate. */
  lemma GateInvariant(h: Hart, sites: Sites, boot: BootCsrs, traps: seq<UTrap>)
    ensures GateHeld(Run(Boot(h, sites, boot), traps, h, sites))
  {
    GateHeldRun(Boot(h, sites, boot), traps, h, sites);
  }
}
