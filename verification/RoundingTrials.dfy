/** The trials of the rounding-mode and accrued-flag programs, on a floating-point unit that rounds
    correctly: every check they make holds, whatever fcsr holds at boot. */
module RoundingTrials {
  import opened Words
  import opened Options
  import opened Binary64
  import opened Fcsr
  import opened RoundingConstants

  const ONE: nat := 0x3FF0_0000_0000_0000
  const TWO: nat := 0x4000_0000_0000_0000
  const THREE: nat := 0x4008_0000_0000_0000
  const HALF_ULP: nat := 0x3CA0_0000_0000_0000            // 2^-53
  const THREE_QUARTER_ULP: nat := 0x3CA8_0000_0000_0000   // 2^-53 + 2^-54
  const ONE_AND_THREE_ULPS: nat := 0x3FF0_0000_0000_0003
  const EIGHTH_ULP: nat := 0x3C80_0000_0000_0000          // 2^-55
  const E16: nat := 0x4341_C379_37E0_8000                 // 10^16
  const THIRD: nat := 0x3FD5_5555_5555_5555               // 1/3, rounded down

  // ---------- Exact results ----------

  function Sum(a: Pattern, b: Pattern): (x: Fraction) {
    Fraction(Value(a) + Value(b), 1)
  }

  function Difference(a: Pattern, b: Pattern): (x: Fraction)
    requires Value(b) <= Value(a)
  {
    Fraction(Value(a) - Value(b), 1)
  }

  /** In units of 2^-1074, which is what the value of 1.0 scales by. */
  function Quotient(a: Pattern, b: Pattern): (x: Fraction) {
    Fraction(Value(a) * Value(ONE), Value(b))
  }

  /** A result strictly between lo and lo + 1, and the pattern nearest to it. */
  ghost predicate Delivers(x: Fraction, lo: nat, nearest: nat) {
    && Ordinary(x) && !Exact(x)
    && Round(RDN, x) == lo && Round(RUP, x) == lo + 1
    && Round(RNE, x) == nearest
  }

  lemma Settled(x: Fraction, lo: nat, nearest: nat)
    requires Between(x, lo) && 0x10_0000_0000_0000 <= lo < MAX
    requires nearest == if Lead(x) > 0 || (Lead(x) == 0 && lo % 2 == 0) then lo else lo + 1
    ensures Delivers(x, lo, nearest)
  {
    LowerIs(x, lo);
    SmallValue(0x10_0000_0000_0000);
    Scaled(0x10_0000_0000_0000, lo, x.den);
  }

  /** 1 + 2^-53 is a tie; the even neighbour is the lower one. */
  lemma AddHalfUlp()
    ensures Delivers(Sum(ONE, HALF_ULP), ONE, ONE)
  {
    var x := Sum(ONE, HALF_ULP);
    HalfUlp(1023, 0, x);
    Settled(x, ONE, ONE);
  }

  lemma AddThreeQuarterUlp()
    ensures Delivers(Sum(ONE, THREE_QUARTER_ULP), ONE, ONE + 1)
  {
    var x := Sum(ONE, THREE_QUARTER_ULP);
    ThreeQuarterUlp(1023, x);
    Settled(x, ONE, ONE + 1);
  }

  /** (1 + 3 * 2^-52) - 2^-55 */
  lemma SubEighthUlp()
    ensures Value(EIGHTH_ULP) <= Value(ONE_AND_THREE_ULPS)
    ensures Delivers(Difference(ONE_AND_THREE_ULPS, EIGHTH_ULP), ONE + 2, ONE_AND_THREE_ULPS)
  {
    ValueMonotone(EIGHTH_ULP, ONE_AND_THREE_ULPS);
    var x := Difference(ONE_AND_THREE_ULPS, EIGHTH_ULP);
    EighthUlpLess(1023, 3, x);
    Settled(x, ONE + 2, ONE_AND_THREE_ULPS);
  }

  lemma DivideOneByThree()
    ensures Delivers(Quotient(ONE, THREE), THIRD, THIRD)
  {
    var x := Quotient(ONE, THREE);
    Third(1023, x);
    Settled(x, THIRD, THIRD);
  }

  /** 10^16 + 1 is a tie; the even neighbour is 10^16. */
  lemma AddOneToE16()
    ensures Delivers(Sum(E16, ONE), E16, E16)
  {
    var x := Sum(E16, ONE);
    HalfUlp(1076, 0x1_C379_37E0_8000, x);
    Settled(x, E16, E16);
  }

  lemma AddOneAndTwo()
    ensures Ordinary(Sum(ONE, TWO)) && Exact(Sum(ONE, TWO)) && Round(RNE, Sum(ONE, TWO)) == THREE
  {
    var x := Sum(ONE, TWO);
    OneAndTwo(1023, x);
    RoundOfExact(RNE, x, THREE);
    RoundOfExact(RUP, x, THREE);
  }

  /** The flags and the mode an instruction leaves. */
  lemma AfterExecute(c: Register, x: Outcome, rm: nat)
    requires EffectiveMode(c, rm).Some?
    ensures var d := Step(c, Execute(x, rm));
            && Frm(d) == Frm(c)
            && (Fflags(d) == 1 <==> if !Exact(x) then Fflags(c) <= 1 else Fflags(c) == 1)
            && (Fflags(c) == 0 ==> Fflags(d) == if !Exact(x) then 1 else 0)
            && (Fflags(c) == 0 ==> Read(d) == Read(c) + if !Exact(x) then 1 else 0)
  {
    WithNx(c);
  }

  lemma WithNx(c: Register)
    ensures Frm(c + {0}) == Frm(c)
    ensures Fflags(c + {0}) == if 0 in c then Fflags(c) else Fflags(c) + 1
    ensures Fflags(c) % 2 == Weight(c, 0, 1)
  {
  }

  /** Neighbours differ in exactly the two low bits when the lower ends in binary 01. */
  lemma NeighboursXor(a: nat)
    requires a % 4 == 1
    ensures Xor(a, a + 1) == 3
  {
    var k := a / 4;
    assert a == 4 * k + 1;
    XorSelf(k);
    assert Xor(2 * k, 2 * k + 1) == 2 * Xor(k, k) + 1;
    assert a / 2 == 2 * k && (a + 1) / 2 == 2 * k + 1;
  }

  /** The register's contents in fcsr-field-independence: cleared, NX accrued, */
  lemma FieldsAtStart()
    ensures Stored(0) == {} && Read({}) == 0x00 && Read({0}) == 0x01
  {
    WriteReads(0);
    SameBits(Stored(0), {});
  }

  /** frm set beside it, */
  lemma FieldsAfterSet()
    ensures {0} + Stored(0x60) == {0, 5, 6} && Read({0, 5, 6}) == 0x61
    ensures Fflags({0, 5, 6}) == 1 && Frm({0, 5, 6}) == 3
  {
    WriteReads(0x60);
    SameBits(Stored(0x60), {5, 6});
  }

  /** and the flags cleared under it. */
  lemma FieldsAfterClear()
    ensures {0, 5, 6} - Stored(0x1f) == {5, 6} && Read({5, 6}) == 0x60
    ensures Fflags({5, 6}) == 0 && Frm({5, 6}) == 3
  {
    WriteReads(0x1f);
    SameBits(Stored(0x1f), {0, 1, 2, 3, 4});
  }

  class Bench {
    var fcsr: Register
    var words: seq<nat>
    var checks: nat
    var fails: nat

    constructor (boot: Register)
      ensures fcsr == boot && words == [] && checks == 0 && fails == 0
    {
      fcsr, words, checks, fails := boot, [], 0, 0;
    }

    method Check(ok: bool)
      modifies `checks, `fails
      ensures checks == old(checks) + 1 && fails == old(fails) + if ok then 0 else 1
    {
      checks := checks + 1;
      if !ok {
        fails := fails + 1;
      }
    }

    method WriteFcsr(v: nat)
      modifies `fcsr
      ensures fcsr == Stored(v)
    {
      fcsr := Stored(v);
    }

    /** One floating-point instruction: static modes from the instruction word, DYN from frm. */
    method Operate(x: Outcome, rm: nat) returns (r: nat)
      requires EffectiveMode(fcsr, rm).Some?
      modifies `fcsr
      ensures Some(r) == Result(old(fcsr), x, rm) && fcsr == Step(old(fcsr), Execute(x, rm))
    {
      r := Round(EffectiveMode(fcsr, rm).value, x);
      if !Exact(x) {
        fcsr := fcsr + {0};
      }
    }

    /** No check of a trial fails exactly if the written value has only fcsr's bits, the rounded
        result is the expected one, NX is the one flag set, and frm is where it was put. */
    method Trial(write: nat, frm: nat, x: Outcome, rm: nat, expected: nat) returns (r: nat)
      requires EffectiveMode(Stored(write), rm).Some?
      modifies this
      ensures Some(r) == Result(Stored(write), x, rm) && fcsr == Step(Stored(write), Execute(x, rm))
      ensures words == old(words) + [r, Read(fcsr)] && checks == old(checks) + 4
      ensures !Exact(x) && Fflags(Stored(write)) == 0 ==> Read(fcsr) == Read(Stored(write)) + 1
      ensures fails >= old(fails)
      ensures fails == old(fails) <==>
              && Read(Stored(write)) == write && r == expected && frm == Frm(Stored(write))
              && if !Exact(x) then Fflags(Stored(write)) <= 1 else Fflags(Stored(write)) == 1
    {
      WriteFcsr(write);
      Check(Read(fcsr) == write);
      r := Operate(x, rm);
      AfterExecute(Stored(write), x, rm);
      Check(r == expected);
      Check(Fflags(fcsr) == 1);
      Check(Frm(fcsr) == frm);
      words := words + [r, Read(fcsr)];
    }

    /** One phase of the accrued-flag program: only inexactness may show in the flags. */
    method Phase(x: Outcome, expected: nat, flags: nat)
      modifies this
      ensures fcsr == Step({}, Execute(x, DYN))
      ensures words == old(words) + [Round(RNE, x), if !Exact(x) then 1 else 0] && checks == old(checks) + 4
      ensures fails >= old(fails)
      ensures fails == old(fails) <==>
              Round(RNE, x) == expected && flags == if !Exact(x) then 1 else 0
    {
      WriteReads(0);
      SameBits(Stored(0), {});
      WriteFcsr(0);
      Check(Read(fcsr) == 0);
      var r := Operate(x, DYN);
      AfterExecute({}, x, DYN);
      Check(r == expected);
      Check(Fflags(fcsr) == flags);
      Check(Frm(fcsr) == 0);
      words := words + [r, Read(fcsr)];
    }

    /** A divide between a write of the mode and the checks of what it leaves in fcsr. */
    method DivideUnder(write: nat, frm: nat, x: Outcome) returns (q: nat)
      requires Read(Stored(write)) == write && Frm(Stored(write)) == frm < 5 && Fflags(Stored(write)) == 0 && !Exact(x)
      modifies this
      ensures q == Round(ModeOf(frm).value, x)
      ensures fails == old(fails) && checks == old(checks) + 3 && words == old(words) + [q, write + 1]
    {
      WriteFcsr(write);
      Check(Read(fcsr) == write);
      q := Operate(x, DYN);
      AfterExecute(Stored(write), x, DYN);
      Check(Frm(fcsr) == frm);
      Check(Fflags(fcsr) == 1);
      words := words + [q, Read(fcsr)];
    }

    /** The RNE trial, which is logged and not checked. */
    method Anchor(x: Outcome)
      modifies `fcsr, `words
      ensures words == old(words) + [Round(RNE, x), if !Exact(x) then 1 else 0]
    {
      WriteReads(0x00);
      WriteFcsr(0x00);
      var q := Operate(x, DYN);
      AfterExecute(Stored(0x00), x, DYN);
      words := words + [q, Read(fcsr)];
    }

    /** frm-rdn-vs-rup-div: RDN and RUP deliver the neighbours that bracket the quotient, RNE the
        lower one, and the two differ in exactly their two low bits. */
    method DirectedDivision(x: Outcome, lo: nat)
      requires Delivers(x, lo, lo) && lo % 4 == 1
      modifies this
      ensures fails == old(fails) && checks == old(checks) + 9
      ensures words == old(words) + [lo, 0x41] + [lo + 1, 0x61] + [lo, 0x01]
    {
      WriteReads(0x40);
      WriteReads(0x60);
      NeighboursXor(lo);
      var down := DivideUnder(0x40, 2, x);
      var up := DivideUnder(0x60, 3, x);
      Anchor(x);
      Check(up == down + 1);
      Check(Xor(down, up) == 3);
      Check(up > down);
    }

    /** The two static trials and the two dynamic controls. */
    method StaticTrials(tie: Outcome, past: Outcome, lo: nat) returns (half: nat, past1: nat, nearest: nat, down: nat)
      requires Delivers(tie, lo, lo) && Delivers(past, lo, lo + 1)
      modifies this
      ensures fails == old(fails) && checks == old(checks) + 16
      ensures half == lo && past1 == lo && nearest == lo + 1 && down == lo
      ensures words == old(words) + [lo, 0x01] + [lo, 0x01] + [lo + 1, 0x01] + [lo, 0x41]
    {
      WriteReads(0x00);
      WriteReads(0x40);
      half := Trial(0x00, 0, tie, 2, lo);
      past1 := Trial(0x00, 0, past, 2, lo);
      nearest := Trial(0x00, 0, past, DYN, lo + 1);
      down := Trial(0x40, 2, tie, DYN, lo);
    }

    /** frm-rounding-static: a static RDN delivers the lower neighbour while frm says RNE, a dynamic
        mode follows frm, and fcsr ends as it began. */
    method StaticMode(tie: Outcome, past: Outcome, lo: nat)
      requires Delivers(tie, lo, lo) && Delivers(past, lo, lo + 1)
      modifies this
      ensures fails == old(fails) && checks == old(checks) + 20 && fcsr == old(fcsr)
      ensures words == old(words) + [lo, 0x01] + [lo, 0x01] + [lo + 1, 0x01] + [lo, 0x41]
    {
      var boot := Read(fcsr);
      ReadStores(fcsr);
      var half, past1, nearest, down := StaticTrials(tie, past, lo);
      Check(past1 == nearest - 1);
      Check(past1 < nearest);
      Check(half == down);
      WriteFcsr(boot);
      Check(Read(fcsr) == boot);
    }

    /** fcsr-frm-rounddn: the RDN result is the lower neighbour of the RNE result. */
    method RoundDown(x: Outcome, lo: nat)
      requires Delivers(x, lo, lo + 1)
      modifies this
      ensures fails == old(fails) && checks == old(checks) + 11 && fcsr == old(fcsr)
      ensures words == old(words) + [lo, 0x41] + [lo + 1, 0x01]
    {
      WriteReads(0x00);
      WriteReads(0x40);
      var boot := Read(fcsr);
      ReadStores(fcsr);
      var down := Trial(0x40, 2, x, DYN, lo);
      var nearest := Trial(0x00, 0, x, DYN, lo + 1);
      Check(down == nearest - 1);
      Check(down < nearest);
      WriteFcsr(boot);
      Check(Read(fcsr) == boot);
    }

    /** fflags-nx-only: an inexact sum raises NX alone, an exact one nothing. */
    method NxOnly(x: Outcome, y: Outcome, rounded: nat, sum: nat)
      requires !Exact(x) && Exact(y) && Round(RNE, x) == rounded && Round(RNE, y) == sum
      modifies this
      ensures fails == old(fails) && checks == old(checks) + 9 && fcsr == old(fcsr)
      ensures words == old(words) + [rounded, 0x01] + [sum, 0x00]
    {
      var boot := Read(fcsr);
      ReadStores(fcsr);
      Phase(x, rounded, 1);
      Phase(y, sum, 0);
      WriteFcsr(boot);
      Check(Read(fcsr) == boot);
    }

    /** fcsr-field-independence: csrs and csrc on one field leave the other alone. */
    method FieldIndependence(x: Outcome)
      requires !Exact(x)
      modifies this
      ensures fails == old(fails) && checks == old(checks) + 9
      ensures words == old(words) + [0x00, 0x01, 0x61, 0x60, 0x00]
    {
      var s1, s2 := AccrueFromClear(x);
      var s3 := SetMode();
      var s4 := ClearFlags();
      FieldsAtStart();
      WriteFcsr(0);
      var s5 := Read(fcsr);
      Check(s5 == 0x00);
      words := words + [s1, s2, s3, s4, s5];
    }

    method AccrueFromClear(x: Outcome) returns (s1: nat, s2: nat)
      requires !Exact(x)
      modifies `fcsr, `checks, `fails
      ensures fails == old(fails) && checks == old(checks) + 2 && s1 == 0x00 && s2 == 0x01 && fcsr == {0}
    {
      FieldsAtStart();
      WriteFcsr(0);
      s1 := Read(fcsr);
      Check(s1 == 0x00);
      var _ := Operate(x, 0);
      s2 := Read(fcsr);
      Check(s2 == 0x01);
    }

    /** csrs fcsr, 3 << 5 */
    method SetMode() returns (s3: nat)
      requires fcsr == {0}
      modifies `fcsr, `checks, `fails
      ensures fails == old(fails) && checks == old(checks) + 3 && s3 == 0x61 && fcsr == {0, 5, 6}
    {
      FieldsAfterSet();
      fcsr := fcsr + Stored(0x60);
      s3 := Read(fcsr);
      Check(s3 == 0x61);
      Check(Fflags(fcsr) == 0x01);
      Check(Frm(fcsr) == 3);
    }

    /** csrc fcsr, 0x1f */
    method ClearFlags() returns (s4: nat)
      requires fcsr == {0, 5, 6}
      modifies `fcsr, `checks, `fails
      ensures fails == old(fails) && checks == old(checks) + 3 && s4 == 0x60 && fcsr == {5, 6}
    {
      FieldsAfterClear();
      fcsr := fcsr - Stored(0x1f);
      s4 := Read(fcsr);
      Check(s4 == 0x60);
      Check(Fflags(fcsr) == 0);
      Check(Frm(fcsr) == 3);
    }
  }

  // ---------- With the sources' operands ----------

  method AddPastOne(b: Bench)
    modifies b
    ensures b.fails == old(b.fails) && b.checks == old(b.checks) + 20 && b.fcsr == old(b.fcsr)
    ensures b.words == old(b.words) + [0x3FF0_0000_0000_0000, 0x01] + [0x3FF0_0000_0000_0000, 0x01]
                       + [0x3FF0_0000_0000_0001, 0x01] + [0x3FF0_0000_0000_0000, 0x41]
  {
    AddHalfUlp();
    AddThreeQuarterUlp();
    b.StaticMode(Sum(ONE, HALF_ULP), Sum(ONE, THREE_QUARTER_ULP), ONE);
  }

  method SubtractBelow(b: Bench)
    modifies b
    ensures b.fails == old(b.fails) && b.checks == old(b.checks) + 11 && b.fcsr == old(b.fcsr)
    ensures b.words == old(b.words) + [0x3FF0_0000_0000_0002, 0x41] + [0x3FF0_0000_0000_0003, 0x01]
  {
    SubEighthUlp();
    b.RoundDown(Difference(ONE_AND_THREE_ULPS, EIGHTH_ULP), ONE + 2);
  }

  method AddInexactThenExact(b: Bench)
    modifies b
    ensures b.fails == old(b.fails) && b.checks == old(b.checks) + 9 && b.fcsr == old(b.fcsr)
    ensures b.words == old(b.words) + [0x4341_C379_37E0_8000, 0x01] + [0x4008_0000_0000_0000, 0x00]
  {
    AddOneToE16();
    AddOneAndTwo();
    b.NxOnly(Sum(E16, ONE), Sum(ONE, TWO), E16, THREE);
  }

  method DivideBothWays(b: Bench)
    modifies b
    ensures b.fails == old(b.fails) && b.checks == old(b.checks) + 9
    ensures b.words == old(b.words) + [0x3FD5_5555_5555_5555, 0x41] + [0x3FD5_5555_5555_5556, 0x61]
                       + [0x3FD5_5555_5555_5555, 0x01]
  {
    var third := THIRD;
    assert third % 4 == 1;
    DivideOneByThree();
    b.DirectedDivision(Quotient(ONE, THREE), third);
  }

  method DivideBetweenWrites(b: Bench)
    modifies b
    ensures b.fails == old(b.fails) && b.checks == old(b.checks) + 9
    ensures b.words == old(b.words) + [0x00, 0x01, 0x61, 0x60, 0x00]
  {
    DivideOneByThree();
    b.FieldIndependence(Quotient(ONE, THREE));
  }
}
