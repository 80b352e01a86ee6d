/** Load-reserved and store-conditional: the reservation over any sequence of accesses, and the
    retry loop with its attempt histogram. */
module LrSc {
  import opened Words
  import opened Options

  /** Accesses of this hart, and the stores of others it can observe. A store-conditional may fail
      for reasons of the implementation's own. */
  datatype Access =
    | Lr(addr: nat)
    | Sw(addr: nat, v: nat)
    | OtherSw(addr: nat, v: nat)
    | Sc(addr: nat, v: nat, spurious: bool)

  /** `ownBreaks` says whether a store of this hart ends its own reservation of the address, which
      section 8.2 of the RISC-V Unprivileged specification leaves to the implementation. */
  datatype Core = Core(mem: nat -> nat, reservation: Option<nat>, ownBreaks: bool)

  function Put(mem: nat -> nat, a: nat, v: nat): (r: nat -> nat) {
    (x: nat) => if x == a then v else mem(x)
  }

  predicate Succeeds(c: Core, e: Access)
    requires e.Sc?
  {
    c.reservation == Some(e.addr) && !e.spurious
  }

  function Stored(c: Core, a: nat, v: nat, breaks: bool): (r: Core) {
    c.(mem := Put(c.mem, a, v), reservation := if breaks && c.reservation == Some(a) then None else c.reservation)
  }

  function Step(c: Core, e: Access): (r: Core) {
    match e
    case Lr(a) => c.(reservation := Some(a))
    case Sw(a, v) => Stored(c, a, v, c.ownBreaks)
    case OtherSw(a, v) => Stored(c, a, v, true)
    case Sc(a, v, _) => if Succeeds(c, e) then Stored(c, a, v, true) else c.(reservation := None)
  }

  function Run(c: Core, es: seq<Access>): (r: Core) {
    if es == [] then c else Step(Run(c, es[..|es| - 1]), es[|es| - 1])
  }

  // ---------- Which store-conditionals succeed ----------

  /** e ends a reservation of a. */
  predicate Breaks(e: Access, a: nat, ownBreaks: bool) {
    match e
    case Lr(b) => b != a
    case Sw(b, _) => b == a && ownBreaks
    case OtherSw(b, _) => b == a
    case Sc(_, _, _) => true
  }

  /** The reservation that access j made lasts to the end of es. */
  predicate LiveFrom(es: seq<Access>, j: nat, a: nat, ownBreaks: bool) {
    j < |es| && es[j] == Lr(a) && forall k :: j < k < |es| ==> !Breaks(es[k], a, ownBreaks)
  }

  lemma LiveLast(es: seq<Access>, j: nat, a: nat, own: bool)
    requires es != [] && j < |es| - 1
    ensures LiveFrom(es, j, a, own) <==> LiveFrom(es[..|es| - 1], j, a, own) && !Breaks(es[|es| - 1], a, own)
  {
    var before := es[..|es| - 1];
    assert forall k :: 0 <= k < |before| ==> before[k] == es[k];
  }

  /** After any run from an unreserved core, an address is reserved exactly if some load-reserved of
      it has been broken neither by another hart's store to it, nor by a store of this hart where
      those count, nor by a store-conditional, nor by a load-reserved elsewhere. */
  lemma {:induction false} ReservedIff(c: Core, es: seq<Access>, a: nat)
    requires c.reservation == None
    ensures Run(c, es).ownBreaks == c.ownBreaks
    ensures Run(c, es).reservation == Some(a) <==> exists j :: 0 <= j < |es| && LiveFrom(es, j, a, c.ownBreaks)
    decreases |es|
  {
    if es != [] {
      var n, own := |es| - 1, c.ownBreaks;
      var before, e := es[..n], es[n];
      ReservedIff(c, before, a);
      forall j: nat | j < n
        ensures LiveFrom(es, j, a, own) <==> LiveFrom(before, j, a, own) && !Breaks(e, a, own)
      {
        LiveLast(es, j, a, own);
      }
      assert LiveFrom(es, n, a, own) <==> e == Lr(a);
      if Run(c, es).reservation == Some(a) && e != Lr(a) {
        var j :| 0 <= j < n && LiveFrom(before, j, a, own);
        assert LiveFrom(es, j, a, own);
      }
    }
  }

  /** So the next store-conditional succeeds exactly then; a failed one changes no memory, a
      successful one only its own address, and either way no reservation is left. */
  lemma ScIff(c: Core, es: seq<Access>, e: Access, x: nat)
    requires c.reservation == None && e.Sc?
    ensures Succeeds(Run(c, es), e) <==>
              !e.spurious && exists j :: 0 <= j < |es| && LiveFrom(es, j, e.addr, c.ownBreaks)
    ensures var before := Run(c, es);
            var after := Step(before, e);
            && after.reservation == None
            && after.mem(x) == if Succeeds(before, e) && x == e.addr then e.v else before.mem(x)
  {
    ReservedIff(c, es, e.addr);
  }

  // ---------- The programs ----------

  class Hart {
    const ownBreaks: bool
    var mem: nat -> nat
    var reservation: Option<nat>

    ghost function View(): Core
      reads this
    {
      Core(mem, reservation, ownBreaks)
    }

    constructor (mem: nat -> nat, ownBreaks: bool)
      ensures View() == Core(mem, None, ownBreaks)
    {
      this.mem, reservation, this.ownBreaks := mem, None, ownBreaks;
    }

    method LoadReserved(a: nat) returns (v: nat)
      modifies this
      ensures View() == Step(old(View()), Lr(a)) && v == old(mem)(a)
    {
      reservation := Some(a);
      v := mem(a);
    }

    method Store(a: nat, v: nat)
      modifies this
      ensures View() == Step(old(View()), Sw(a, v))
    {
      mem := Put(mem, a, v);
      if ownBreaks && reservation == Some(a) {
        reservation := None;
      }
    }

    /** rd is 0 exactly if the store happened. */
    method StoreConditional(a: nat, v: nat, spurious: bool) returns (rd: nat)
      modifies this
      ensures View() == Step(old(View()), Sc(a, v, spurious))
      ensures rd == 0 <==> Succeeds(old(View()), Sc(a, v, spurious))
    {
      rd := 1;
      if reservation == Some(a) && !spurious {
        mem := Put(mem, a, v);
        rd := 0;
      }
      reservation := None;
    }

    /** lr.w, sw, sc.w on one address: the store-conditional fails, and the store's value stays,
        exactly if the store ended the reservation or the implementation fails it anyway. */
    method LrSwSc(a: nat, sw: nat, sc: nat, spurious: bool) returns (rd: nat)
      modifies this
      ensures rd != 0 <==> ownBreaks || spurious
      ensures reservation == None
      ensures forall x: nat :: mem(x) == if x != a then old(mem)(x) else if rd != 0 then sw else sc
    {
      var _ := LoadReserved(a);
      Store(a, sw);
      rd := StoreConditional(a, sc, spurious);
    }

    /** lr.w, sc.w: succeeds unless the implementation fails it. */
    method LrSc(a: nat, sc: nat, spurious: bool) returns (rd: nat)
      modifies this
      ensures rd == 0 <==> !spurious
      ensures reservation == None && forall x: nat :: mem(x) == if x == a && !spurious then sc else old(mem)(x)
    {
      var _ := LoadReserved(a);
      rd := StoreConditional(a, sc, spurious);
    }

    /** The two experiments of lrsc-store-invalidate: of their five checks none
        fails exactly if an intervening store ends the reservation, or a failure of the
        implementation's own hides that it does not, and the control pair does not fail. */
    method StoreInvalidate(a: nat, b: nat, sw: nat, scA: nat, scB: nat, failA: bool, failB: bool) returns (fails: nat)
      requires sw != scA
      modifies this
      ensures fails == 0 <==> (ownBreaks || failA) && !failB
      ensures a != b && old(mem)(b) != scB ==>
                fails == (if ownBreaks || failA then 0 else 3) + if failB then 2 else 0
    {
      fails := 0;
      var rdA := LrSwSc(a, sw, scA, failA);
      var afterA := mem(a);
      if rdA == 0 {
        fails := fails + 1;
      }
      if afterA != sw {
        fails := fails + 1;
      }
      if afterA == scA {
        fails := fails + 1;
      }
      var rdB := LrSc(b, scB, failB);
      var afterB := mem(b);
      if rdB != 0 {
        fails := fails + 1;
      }
      if afterB != scB {
        fails := fails + 1;
      }
    }

    /** The retry loop, when the implementation fails the first `failures` attempts. The counter is a
        machine word. */
    method Retry(cell: nat, val: nat, failures: nat) returns (attempts: Word)
      modifies this
      ensures attempts == Wrap(failures + 1)
      ensures forall x: nat :: mem(x) == if x == cell then val else old(mem)(x)
    {
      attempts := 0;
      var sc := 1;
      var left := failures;
      ghost var made := 0;
      while sc != 0
        invariant attempts == Wrap(made) && 0 <= left
        invariant if sc != 0 then made + left == failures else made == failures + 1
        invariant forall x: nat :: mem(x) == if x == cell && sc == 0 then val else old(mem)(x)
        decreases failures + 1 - made
      {
        sc := LrSc(cell, val, left > 0);
        left := if left > 0 then left - 1 else 0;
        WrapNext(made);
        attempts := Add(attempts, 1);
        made := made + 1;
      }
    }
  }

  // ---------- The histogram of attempts ----------

  const BINS: nat := 64

  /** Iterations that took exactly b attempts. */
  function CountOf(counts: seq<nat>, b: nat): (n: nat) {
    if counts == [] then 0 else CountOf(counts[..|counts| - 1], b) + if counts[|counts| - 1] == b then 1 else 0
  }

  /** Iterations that took more than b attempts. */
  function CountAbove(counts: seq<nat>, b: nat): (n: nat) {
    if counts == [] then 0 else CountAbove(counts[..|counts| - 1], b) + if counts[|counts| - 1] > b then 1 else 0
  }

  /** The bins 1 to b together. */
  function BinsUpTo(counts: seq<nat>, b: nat): (n: nat) {
    if b == 0 then 0 else BinsUpTo(counts, b - 1) + CountOf(counts, b)
  }

  lemma {:induction false} CountAboveSplits(counts: seq<nat>, b: nat)
    ensures CountAbove(counts, b) == CountOf(counts, b + 1) + CountAbove(counts, b + 1)
    decreases |counts|
  {
    if counts != [] {
      CountAboveSplits(counts[..|counts| - 1], b);
    }
  }

  lemma {:induction false} CountAboveZero(counts: seq<nat>)
    ensures CountAbove(counts, 0) + CountOf(counts, 0) == |counts|
    decreases |counts|
  {
    if counts != [] {
      CountAboveZero(counts[..|counts| - 1]);
    }
  }

  /** Bins and overflow count every iteration once, wherever the bins stop, but for those whose
      count is zero. */
  lemma {:induction false} BinsAndOverflow(counts: seq<nat>, b: nat)
    ensures BinsUpTo(counts, b) + CountAbove(counts, b) + CountOf(counts, 0) == |counts|
    decreases b
  {
    if b == 0 {
      CountAboveZero(counts);
    } else {
      BinsAndOverflow(counts, b - 1);
      CountAboveSplits(counts, b - 1);
    }
  }

  lemma {:induction false} NoneZero(counts: seq<nat>)
    ensures CountOf(counts, 0) == 0 <==> forall i :: 0 <= i < |counts| ==> counts[i] != 0
    decreases |counts|
  {
    if counts != [] {
      NoneZero(counts[..|counts| - 1]);
      assert forall i :: 0 <= i < |counts| - 1 ==> counts[..|counts| - 1][i] == counts[i];
    }
  }

  /** The histogram of these counts, with the word that lies before its first bin: a count of zero is
      added there, at index -1. */
  ghost predicate Binned(hist: array<nat>, stray: nat, overflow: nat, counts: seq<nat>)
    reads hist
  {
    && hist.Length == BINS && overflow == CountAbove(counts, BINS) && stray == CountOf(counts, 0)
    && forall b :: 0 <= b < BINS ==> hist[b] == CountOf(counts, b + 1)
  }

  /** The largest of these counts; 0 of none. */
  predicate IsMax(m: nat, counts: seq<nat>) {
    (forall k :: 0 <= k < |counts| ==> counts[k] <= m) && if counts == [] then m == 0 else m in counts
  }

  method SumBins(hist: array<nat>, overflow: nat, ghost stray: nat, ghost counts: seq<nat>) returns (sum: nat)
    requires Binned(hist, stray, overflow, counts)
    ensures sum + stray == |counts|
  {
    sum := 0;
    for b := 0 to 64
      invariant sum == BinsUpTo(counts, b)
    {
      sum := sum + hist[b];
    }
    sum := sum + overflow;
    BinsAndOverflow(counts, BINS);
  }

  /** The attempts each iteration reports. */
  function Reported(failures: seq<nat>): (counts: seq<nat>)
    ensures |counts| == |failures|
  {
    seq(|failures|, i requires 0 <= i < |failures| => Wrap(failures[i] + 1))
  }

  /** One iteration's entry in the histogram. */
  method Enter(hist: array<nat>, stray: nat, overflow: nat, attempts: nat, ghost counts: seq<nat>)
    returns (strays: nat, over: nat)
    requires Binned(hist, stray, overflow, counts)
    modifies hist
    ensures Binned(hist, strays, over, counts + [attempts])
  {
    assert (counts + [attempts])[..|counts|] == counts;
    strays, over := stray, overflow;
    if attempts <= BINS {
      if attempts == 0 {
        strays := strays + 1;
      } else {
        hist[attempts - 1] := hist[attempts - 1] + 1;
      }
    } else {
      over := over + 1;
    }
  }

  /** The experiment, for any number of iterations and any finite failures of each: the bins are the
      counts of reported attempts, every stored value reads back, and the sum check holds exactly if
      no counter wrapped to zero; each that did wrote to the word before the bins instead. */
  method Experiment(h: Hart, cell: nat, failures: seq<nat>)
    returns (hist: array<nat>, stray: nat, overflow: nat, maxAttempts: nat, valueErrors: int, sum: nat)
    modifies h
    ensures Binned(hist, stray, overflow, Reported(failures)) && IsMax(maxAttempts, Reported(failures))
    ensures sum + stray == |failures| && valueErrors == 0
    ensures sum == |failures| <==> forall i :: 0 <= i < |failures| ==> Reported(failures)[i] != 0
  {
    hist := new nat[64](_ => 0);
    stray, overflow, maxAttempts, valueErrors := 0, 0, 0, 0;
    ghost var counts := Reported(failures);
    assert counts[..0] == [];
    for i := 0 to |failures|
      invariant Binned(hist, stray, overflow, counts[..i]) && IsMax(maxAttempts, counts[..i])
      invariant valueErrors == 0 && fresh(hist)
    {
      var attempts := h.Retry(cell, i, failures[i]);
      assert counts[i] == attempts && counts[..i + 1] == counts[..i] + [attempts];
      stray, overflow := Enter(hist, stray, overflow, attempts, counts[..i]);
      MaxNext(maxAttempts, attempts, counts[..i]);
      if attempts > maxAttempts {
        maxAttempts := attempts;
      }
      if h.mem(cell) != i {
        valueErrors := valueErrors + 1;
      }
    }
    assert counts[..|failures|] == counts;
    sum := SumBins(hist, overflow, stray, counts);
    NoneZero(counts);
  }

  lemma MaxNext(m: nat, x: nat, counts: seq<nat>)
    requires IsMax(m, counts)
    ensures IsMax(if x > m then x else m, counts + [x])
  {
    var longer := counts + [x];
    assert forall k :: 0 <= k < |counts| ==> longer[k] == counts[k];
    assert longer[|counts|] == x;
  }

  /** The counter tells the attempts made exactly below 2^64, and reads zero at the multiples of 2^64:
      there, 2^64 - 1 failures in the only iteration leave every bin empty, so
      the sum check fails although the value was stored. */
  lemma WrappedCounter(failures: seq<nat>, i: nat)
    requires i < |failures|
    ensures Reported(failures)[i] == failures[i] + 1 <==> failures[i] + 1 < WORD_SIZE
    ensures Reported(failures)[i] == 0 <==> (failures[i] + 1) % WORD_SIZE == 0
    ensures failures == [WORD_SIZE - 1] ==>
              BinsUpTo(Reported(failures), BINS) + CountAbove(Reported(failures), BINS) == 0
  {
    if failures == [WORD_SIZE - 1] {
      var counts := Reported(failures);
      assert counts == [0] && counts[..0] == [];
      assert CountOf(counts, 0) == 1;
      BinsAndOverflow(counts, BINS);
    }
  }
}
