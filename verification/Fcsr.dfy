/**
 The floating-point control and status register: five accrued flags below a three-bit rounding
 mode, changed by CSR writes and by floating-point instructions. An instruction is known
 by its exact result, which is modelled where it is not negative and can raise no flag but NX.
 */
module Fcsr {
  import opened Options
  import opened Binary64

  /** An exact result that neither overflows nor underflows: rounding it can raise no flag but NX. */
  predicate Ordinary(x: Fraction) {
    && x.den > 0
    && Round(RUP, x) <= MAX
    && (Exact(x) || 0x10_0000_0000_0000 * x.den <= x.num)
  }

  type Outcome = x: Fraction | Ordinary(x) witness Fraction(0, 1)

  // ---------- The register ----------

  /** The numbers of the bits that read as one. */
  type Register = c: set<nat> | forall k :: k in c ==> k < 8

  /** What csrw stores: fcsr has no bits above the eighth. */
  function Stored(v: nat): (c: Register) {
    set k: nat | k < 8 && Shifted(v, k) % 2 == 1
  }

  function Shifted(v: nat, k: nat): (s: nat) {
    if k == 0 then v else Shifted(v, k - 1) / 2
  }

  function Weight(c: Register, k: nat, w: nat): (n: nat) {
    if k in c then w else 0
  }

  function Fflags(c: Register): (n: nat)
    ensures n < 32
  {
    Weight(c, 0, 1) + Weight(c, 1, 2) + Weight(c, 2, 4) + Weight(c, 3, 8) + Weight(c, 4, 16)
  }

  function Frm(c: Register): (n: nat)
    ensures n < 8
  {
    Weight(c, 5, 1) + Weight(c, 6, 2) + Weight(c, 7, 4)
  }

  /** What csrr reads. */
  function Read(c: Register): (n: nat) {
    32 * Frm(c) + Fflags(c)
  }

  /** Two bits of a stored value, and the rest. */
  lemma TwoBits(v: nat, k: nat)
    requires k < 7
    ensures var c := Stored(v);
            Shifted(v, k) == Weight(c, k, 1) + Weight(c, k + 1, 2) + 4 * Shifted(v, k + 2)
  {
    assert Shifted(v, k + 1) == Shifted(v, k) / 2 && Shifted(v, k + 2) == Shifted(v, k + 1) / 2;
  }

  lemma StoredBits(v: nat)
    ensures var c := Stored(v);
            && v == Weight(c, 0, 1) + Weight(c, 1, 2) + Weight(c, 2, 4) + Weight(c, 3, 8) + Weight(c, 4, 16)
                    + 32 * Shifted(v, 5)
            && Shifted(v, 5) == Weight(c, 5, 1) + Weight(c, 6, 2) + Weight(c, 7, 4) + 8 * Shifted(v, 8)
  {
    TwoBits(v, 0);
    TwoBits(v, 2);
    TwoBits(v, 4);
    TwoBits(v, 5);
    TwoBits(v, 6);
    assert Shifted(v, 0) == v;
  }

  /** A written value reads back modulo 256, its fields where the layout puts them. */
  lemma WriteReads(v: nat)
    ensures Read(Stored(v)) == v % 256
    ensures Fflags(Stored(v)) == v % 32 && Frm(Stored(v)) == v / 32 % 8
  {
    StoredBits(v);
    FieldsOf(v, Fflags(Stored(v)), Frm(Stored(v)), Shifted(v, 8));
  }

  lemma FieldsOf(v: nat, low: nat, high: nat, rest: nat)
    requires v == low + 32 * (high + 8 * rest) && low < 32 && high < 8
    ensures v % 256 == 32 * high + low && v % 32 == low && v / 32 % 8 == high
  {
    assert v / 32 == high + 8 * rest;
    assert v % 256 == 32 * high + low by {
      assert v == 256 * rest + (32 * high + low);
    }
  }

  lemma SameBits(c: Register, d: Register)
    requires Fflags(c) == Fflags(d) && Frm(c) == Frm(d)
    ensures c == d
  {
    assert 0 in c <==> 0 in d;
    assert 1 in c <==> 1 in d;
    assert 2 in c <==> 2 in d;
    assert 3 in c <==> 3 in d;
    assert 4 in c <==> 4 in d;
    assert 5 in c <==> 5 in d;
    assert 6 in c <==> 6 in d;
    assert forall k: nat :: k in c <==> k in d;
  }

  /** Writing back what was read restores the register. */
  lemma ReadStores(c: Register)
    ensures Stored(Read(c)) == c
  {
    WriteReads(Read(c));
    FieldsOf(Read(c), Fflags(c), Frm(c), 0);
    SameBits(Stored(Read(c)), c);
  }

  /** The mode an rm or frm encoding stands for; 5, 6 and 7 are reserved. */
  function ModeOf(n: nat): (m: Option<Mode>) {
    match n
    case 0 => Some(RNE)
    case 1 => Some(RTZ)
    case 2 => Some(RDN)
    case 3 => Some(RUP)
    case 4 => Some(RMM)
    case _ => None
  }

  const DYN: nat := 7

  /** Static encodings name a mode; DYN takes it from frm. */
  function EffectiveMode(c: Register, rm: nat): (m: Option<Mode>) {
    if rm == DYN then ModeOf(Frm(c)) else ModeOf(rm)
  }

  /** What an instruction delivers; None if it is illegal. */
  function Result(c: Register, x: Outcome, rm: nat): (r: Option<nat>) {
    match EffectiveMode(c, rm)
    case Some(m) => Some(Round(m, x))
    case None => None
  }

  /** The instruction is executed and its result is inexact. */
  predicate RaisesNx(c: Register, x: Outcome, rm: nat) {
    EffectiveMode(c, rm).Some? && !Exact(x)
  }

  datatype Event =
    | CsrW(v: nat)
    | CsrS(v: nat)
    | CsrC(v: nat)
    | Execute(x: Outcome, rm: nat)

  function Step(c: Register, e: Event): (r: Register) {
    match e
    case CsrW(v) => Stored(v)
    case CsrS(v) => c + Stored(v)
    case CsrC(v) => c - Stored(v)
    case Execute(x, rm) => if RaisesNx(c, x, rm) then c + {0} else c
  }

  function Run(c: Register, es: seq<Event>): (r: Register) {
    if es == [] then c else Step(Run(c, es[..|es| - 1]), es[|es| - 1])
  }

  // ---------- Every bit of the register, over every run ----------

  predicate Sets(c: Register, e: Event, k: nat)
    requires k < 8
  {
    match e
    case CsrW(v) => k in Stored(v)
    case CsrS(v) => k in Stored(v)
    case CsrC(_) => false
    case Execute(x, rm) => k == 0 && RaisesNx(c, x, rm)
  }

  predicate Clears(e: Event, k: nat)
    requires k < 8
  {
    match e
    case CsrW(v) => k !in Stored(v)
    case CsrS(_) => false
    case CsrC(v) => k in Stored(v)
    case Execute(_, _) => false
  }

  predicate KeptFrom(es: seq<Event>, i: nat, k: nat)
    requires k < 8
  {
    forall j :: i <= j < |es| ==> !Clears(es[j], k)
  }

  /** Event i sets bit k and nothing after it clears it. */
  ghost predicate SetAndKept(c: Register, es: seq<Event>, i: nat, k: nat)
    requires k < 8 && i < |es|
  {
    Sets(Run(c, es[..i]), es[i], k) && KeptFrom(es, i + 1, k)
  }

  /** A bit of fcsr is set after a run exactly if some event set it and none cleared it since, or
      it was set to begin with and none cleared it. For bit 0 the events that set it include every
      executed inexact instruction; no other bit is ever changed by an instruction. */
  lemma {:induction false} AccruedBits(c: Register, es: seq<Event>, k: nat)
    requires k < 8
    ensures k in Run(c, es) <==>
              || (k in c && KeptFrom(es, 0, k))
              || (exists i: nat :: i < |es| && SetAndKept(c, es, i, k))
    decreases |es|
  {
    if es != [] {
      var n := |es| - 1;
      var before, e := es[..n], es[n];
      AccruedBits(c, before, k);
      KeptLast(es, 0, k);
      forall i: nat | i < n
        ensures SetAndKept(c, es, i, k) <==> SetAndKept(c, before, i, k) && !Clears(e, k)
      {
        assert before[..i] == es[..i];
        KeptLast(es, i + 1, k);
      }
      assert SetAndKept(c, es, n, k) <==> Sets(Run(c, before), e, k);
    }
  }

  lemma KeptLast(es: seq<Event>, i: nat, k: nat)
    requires es != [] && i < |es| && k < 8
    ensures KeptFrom(es, i, k) <==> KeptFrom(es[..|es| - 1], i, k) && !Clears(es[|es| - 1], k)
  {
    var before := es[..|es| - 1];
    assert forall j :: i <= j < |before| ==> before[j] == es[j];
  }

  predicate SparesFrm(e: Event) {
    match e
    case CsrW(_) => false
    case CsrS(v) => forall k :: k in Stored(v) ==> k < 5
    case CsrC(v) => forall k :: k in Stored(v) ==> k < 5
    case Execute(_, _) => true
  }

  /** Instructions and writes that spare bits 7:5 leave frm alone. */
  lemma {:induction false} FrmOnlyByWrites(c: Register, es: seq<Event>)
    requires forall i :: 0 <= i < |es| ==> SparesFrm(es[i])
    ensures Frm(Run(c, es)) == Frm(c)
    decreases |es|
  {
    if es != [] {
      FrmOnlyByWrites(c, es[..|es| - 1]);
      assert SparesFrm(es[|es| - 1]);
    }
  }

  // ---------- Which mode rounds, over every run ----------

  lemma {:induction false} RunConcat(c: Register, a: seq<Event>, b: seq<Event>)
    ensures Run(c, a + b) == Run(Run(c, a), b)
    decreases |b|
  {
    if b == [] {
      assert a + b == a;
    } else {
      RunConcat(c, a, b[..|b| - 1]);
      assert (a + b)[..|a + b| - 1] == a + b[..|b| - 1];
    }
  }

  /** Whatever happened to fcsr before, an instruction with a static mode delivers that mode's result.
      After a write of v and any events that spare frm, a dynamic one delivers what the static
      mode v / 32 % 8 would, and is illegal where that encoding is reserved. */
  lemma ModeOverRuns(c: Register, d: Register, before: seq<Event>, v: nat, after: seq<Event>, x: Outcome, rm: nat)
    requires forall i :: 0 <= i < |after| ==> SparesFrm(after[i])
    ensures rm != DYN ==> Result(Run(c, before), x, rm) == Result(d, x, rm)
    ensures var r := Run(c, before + [CsrW(v)] + after);
            var n := v / 32 % 8;
            Result(r, x, DYN) == if n < 5 then Result(d, x, n) else None
  {
    var mid := before + [CsrW(v)];
    RunConcat(c, mid, after);
    assert mid[..|mid| - 1] == before;
    FrmOnlyByWrites(Stored(v), after);
    WriteReads(v);
  }

  /** An executed instruction delivers one of the two patterns that bracket its exact result, the
      result itself when it is representable, and raises NX exactly when it is not. */
  lemma ResultBrackets(c: Register, x: Outcome, rm: nat, b: nat)
    requires EffectiveMode(c, rm).Some?
    ensures var r := Result(c, x, rm).value;
            && r <= MAX && (r == Round(RDN, x) || r == Round(RUP, x))
            && (Is(b, x) ==> r == b)
            && (0 in Step(c, Execute(x, rm)) <==> 0 in c || !Is(r, x))
  {
    RoundsUpFinite(x);
    DirectedBrackets(x, Result(c, x, rm).value);
    if Is(b, x) {
      RoundOfExact(EffectiveMode(c, rm).value, x, b);
    }
  }

  // ---------- What each encoding delivers ----------

  /** r is what the rounding mode with number n must deliver for x, judged against any pattern b: 0 the
      nearest pattern with ties to even, 1 and 2 the greatest not above, 3 the least not below, 4
      the nearest with ties to the larger; 5, 6 and 7 name no mode. */
  predicate RoundedAs(n: nat, r: Option<nat>, x: Outcome, b: nat) {
    match n
    case 0 => r.Some? && (b != r.value ==> Nearer(r.value, b, x) || (AsNear(r.value, b, x) && r.value % 2 == 0))
    case 1 => r.Some? && (Below(b, x) <==> b <= r.value)
    case 2 => r.Some? && (Below(b, x) <==> b <= r.value)
    case 3 => r.Some? && (Above(b, x) <==> r.value <= b)
    case 4 => r.Some? && (b != r.value ==> Nearer(r.value, b, x) || (AsNear(r.value, b, x) && b < r.value))
    case _ => r == None
  }

  predicate Nearer(r: nat, b: nat, x: Outcome) {
    Distance(r, x) < Distance(b, x)
  }

  predicate AsNear(r: nat, b: nat, x: Outcome) {
    Distance(r, x) == Distance(b, x)
  }

  /** A static rounding mode delivers what its number stands for, for every result and register. */
  lemma StaticEncodings(c: Register, x: Outcome, n: nat, b: nat)
    requires n != 7
    ensures RoundedAs(n, Result(c, x, n), x, b)
  {
    RoundsUpFinite(x);
    if n == 0 {
      Nearest(RNE, x, b);
    } else if n == 4 {
      Nearest(RMM, x, b);
    } else if n < 4 {
      DirectedBrackets(x, b);
    }
  }

  /** And so does the dynamic mode by the number last written to bits 7:5, whatever came before and
      whatever that spares them came after. */
  lemma DynamicEncodings(c: Register, before: seq<Event>, v: nat, after: seq<Event>, x: Outcome, b: nat)
    requires forall i :: 0 <= i < |after| ==> SparesFrm(after[i])
    ensures RoundedAs(v / 32 % 8, Result(Run(c, before + [CsrW(v)] + after), x, 7), x, b)
  {
    ModeOverRuns(c, c, before, v, after, x, 7);
    if v / 32 % 8 < 5 {
      StaticEncodings(c, x, v / 32 % 8, b);
    }
  }

  /** The results in scope: finite when rounded up, and exact or with a nonzero exponent field. */
  lemma OrdinaryMeans(x: Fraction)
    requires x.den > 0
    ensures Ordinary(x) <==> Round(RUP, x) / 0x10_0000_0000_0000 < 0x7FF
                             && (Exact(x) || Round(RDN, x) / 0x10_0000_0000_0000 >= 1)
  {
    FiniteIff(Round(RUP, x));
    SmallValue(0x10_0000_0000_0000);
    BelowIff(x, 0x10_0000_0000_0000);
  }
}
