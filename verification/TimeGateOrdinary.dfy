/**
 The mcounteren.TM experiment on ordinary harts: harts whose three CSRs keep the written bits that
 they implement. They conform, so the whole program passes on them without further conditions
 on the hart, and its bounded history holds the first eight S-mode traps.
 */
module TimeGateOrdinary {
  import opened Words
  import opened Masks
  import opened TimeGate
  import opened TimeGateSoundness
  import opened TimeGatePayload

  /** The bits each CSR implements. */
  datatype Implemented = Implemented(mcounteren: Word, scounteren: Word, medeleg: Word)

  /** A write keeps the implemented bits of the written value and nothing else. */
  ghost predicate Keeps(h: Hart, m: Implemented) {
    && (forall o: Word, v: Word :: h.mcounteren(o, v) == And(v, m.mcounteren))
    && (forall o: Word, v: Word :: h.scounteren(o, v) == And(v, m.scounteren))
    && (forall o: Word, v: Word :: h.medeleg(o, v) == And(v, m.medeleg))
  }

  /** The experiment's bits are implemented: CY, TM and IR of mcounteren, TM of scounteren, illegal
      instruction and U-mode ecall of medeleg; and the boot values hold implemented bits only. */
  predicate Suffices(m: Implemented, boot: BootCsrs) {
    && Bit(m.mcounteren, 0) && Bit(m.mcounteren, 1) && Bit(m.mcounteren, 2)
    && Bit(m.scounteren, 1)
    && Bit(m.medeleg, 2) && Bit(m.medeleg, 8)
    && boot.mc == 0 && And(boot.sc, m.scounteren) == boot.sc && And(boot.md, m.medeleg) == boot.md
  }

  lemma MaskOfSeven(m: nat)
    requires Bit(m, 0) && Bit(m, 1) && Bit(m, 2)
    ensures And(7, m) == 7
  {
    LowBit(m);
    BitShift(m, 1);
    LowBit(m / 2);
    BitShift(m, 2);
    BitShift(m / 2, 1);
    LowBit(m / 2 / 2);
    assert And(1, m / 2 / 2) == 1;
    assert And(3, m / 2) == 3;
  }

  lemma MaskOfTwo(m: nat)
    requires Bit(m, 1)
    ensures And(2, m) == 2
  {
    BitShift(m, 1);
    LowBit(m / 2);
    assert And(1, m / 2) == 1;
  }

  /** The bits of the value written to medeleg: illegal instruction and U-mode ecall, and not the
      S-mode ecall. */
  lemma DelegatedBits()
    ensures Bit(0x104, 2) && Bit(0x104, 8) && !Bit(0x104, 9)
  {
    assert Pow2(2) == 4 && Pow2(8) == 256 && Pow2(9) == 512;
  }

  lemma OrdinaryHartConforms(h: Hart, m: Implemented, boot: BootCsrs)
    requires Keeps(h, m) && Suffices(m, boot)
    ensures Conforms(h, boot)
  {
    MaskOfSeven(m.mcounteren);
    MaskOfTwo(m.mcounteren);
    MaskOfTwo(m.scounteren);
    TmIsTm();
    assert And(0, m.mcounteren) == 0;
    NoBits(1);
    DelegatedBits();
    AndBit(0x104, m.medeleg, 2);
    AndBit(0x104, m.medeleg, 8);
    AndBit(0x104, m.medeleg, 9);
  }

  /** On an ordinary hart any U-mode whose first four traps are the expected ones makes the handlers
      write PASS, with no other condition on the hart. */
  lemma GoodTrapsPass(h: Hart, m: Implemented, boot: BootCsrs, sites: Sites, traps: seq<UTrap>)
    requires Keeps(h, m) && Suffices(m, boot)
    ensures Run(Boot(h, sites, boot), traps, h, sites).loc.Passed? <==> GoodTraps(traps, sites)
  {
    OrdinaryHartConforms(h, m, boot);
    VerdictSound(h, sites, boot, traps);
  }

  /** And the program's own payloads do so exactly if the timer ticks in both sampling phases. */
  lemma OrdinaryHartPasses(h: Hart, m: Implemented, boot: BootCsrs, b: Board, sites: Sites, n: nat)
    requires Keeps(h, m) && Suffices(m, boot) && DistinctSites(sites) && n >= 4
    ensures ProgramEnd(h, boot, b, sites, n).loc.Passed? <==> BothTick(b)
  {
    OrdinaryHartConforms(h, m, boot);
    ProgramPassesIffTimerTicks(h, boot, b, sites, n);
  }

  // ---------- The history ----------

  /** The frames the S-mode dispatcher is entered with, in order. */
  function Delivered(s: State, traps: seq<UTrap>, h: Hart, sites: Sites): (fs: seq<Frame>)
    decreases |traps|
  {
    if traps == [] then []
    else
      var rest := Delivered(Serve(s, traps[0], h, sites), traps[1..], h, sites);
      if s.loc.UMode? && ToSMode(s, traps[0]) then [traps[0]] + rest else rest
  }

  /** The history after the frames fs reached the dispatcher of a state with none. */
  predicate Recorded(s: State, fs: seq<Frame>) {
    && |s.hist| == Min(|fs|, 8)
    && (forall i :: 0 <= i < |s.hist| ==> s.hist[i].frame == fs[i] && s.hist[i].count == i + 1)
    && s.trapCount == Wrap(|fs|)
  }

  /** One trap adds its frame to what is recorded, if it reaches the dispatcher. */
  lemma RecordedStep(s: State, f: UTrap, fs: seq<Frame>, h: Hart, sites: Sites)
    requires Recorded(s, fs)
    ensures Recorded(Serve(s, f, h, sites), if s.loc.UMode? && ToSMode(s, f) then fs + [f] else fs)
  {
    if s.loc.UMode? && ToSMode(s, f) {
      RecordKeeps(s, f, fs);
      var d := Dispatch(s, f, sites);
      SameHistory(Record(s, f), d, fs + [f]);
      if d.loc.Continuation? {
        var c := Continue(d, d.loc.phase, sites);
        HandlersKeepHistory(c, 9, sites.sEcall, h, sites);
        SameHistory(d, HandOff(c, h, sites), fs + [f]);
      }
    } else if s.loc.UMode? {
      HandlersKeepHistory(s, f.cause, f.epc, h, sites);
      SameHistory(s, Serve(s, f, h, sites), fs);
    }
  }

  lemma SmallWrap(n: nat)
    requires n < WORD_SIZE
    ensures Wrap(n) == n
  {
  }

  lemma RecordKeeps(s: State, f: Frame, fs: seq<Frame>)
    requires Recorded(s, fs)
    ensures Recorded(Record(s, f), fs + [f])
  {
    WrapNext(|fs|);
    if |fs| < 8 {
      SmallWrap(|fs| + 1);
    }
    var r := Record(s, f);
    if |fs| < 8 {
      assert r.hist == s.hist + [Row(f, Wrap(|fs| + 1), s.resume)];
    } else {
      assert r.hist == s.hist;
    }
  }

  lemma SameHistory(s: State, r: State, fs: seq<Frame>)
    requires Recorded(s, fs) && r.hist == s.hist && r.trapCount == s.trapCount
    ensures Recorded(r, fs)
  {
  }

  lemma HandlersKeepHistory(s: State, mcause: Word, mepc: Word, h: Hart, sites: Sites)
    ensures MHandle(s, mcause, mepc, h, sites).hist == s.hist
    ensures MHandle(s, mcause, mepc, h, sites).trapCount == s.trapCount
  {
  }

  lemma {:induction false} RecordedRun(s: State, traps: seq<UTrap>, fs: seq<Frame>, h: Hart, sites: Sites)
    requires Recorded(s, fs)
    ensures Recorded(Run(s, traps, h, sites), fs + Delivered(s, traps, h, sites))
    decreases |traps|
  {
    if traps == [] {
      assert fs + [] == fs;
    } else {
      var s1 := Serve(s, traps[0], h, sites);
      RecordedStep(s, traps[0], fs, h, sites);
      if s.loc.UMode? && ToSMode(s, traps[0]) {
        RecordedRun(s1, traps[1..], fs + [traps[0]], h, sites);
        assert fs + [traps[0]] + Delivered(s1, traps[1..], h, sites) == fs + Delivered(s, traps, h, sites);
      } else {
        RecordedRun(s1, traps[1..], fs, h, sites);
      }
    }
  }

  /** After any run on any hart the history holds the first eight frames that reached the
      dispatcher, numbered from 1, and the trap counter counts all of them. */
  lemma HistoryExact(h: Hart, sites: Sites, boot: BootCsrs, traps: seq<UTrap>)
    ensures var s := Boot(h, sites, boot);
            Recorded(Run(s, traps, h, sites), Delivered(s, traps, h, sites))
  {
    var s := Boot(h, sites, boot);
    RecordedRun(s, traps, [], h, sites);
    assert [] + Delivered(s, traps, h, sites) == Delivered(s, traps, h, sites);
  }
}
