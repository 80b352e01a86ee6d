/** Delegation over whole runs: for any interleaving of medeleg writes, privilege drops and
    traps, each trap is counted in the mode its cause bit named at that moment. */
module TrapRouting {
  import opened Words
  import opened Pmp
  import opened HartModel

  /** What happens between handler runs: M-mode rewrites medeleg or moves to a privilege, or
      the running code traps. Handlers count the trap and return where it came from. */
  datatype Event = WriteMedeleg(value: Word) | Enter(priv: Priv) | Trap(cause: Word, tval: Word, pc: Word)

  datatype Machine = Machine(hart: Hart, sTraps: nat, mTraps: nat)

  function Serve(m: Machine, e: Event): (r: Machine) {
    match e
    case WriteMedeleg(v) => m.(hart := m.hart.(medeleg := v))
    case Enter(p) => m.(hart := m.hart.(priv := p))
    case Trap(cause, tval, pc) =>
      var h := m.hart.(pc := pc);
      if GoesToS(h, cause) then m.(hart := Sret(Raise(h, cause, tval)), sTraps := m.sTraps + 1)
      else m.(hart := Mret(Raise(h, cause, tval)), mTraps := m.mTraps + 1)
  }

  function Run(m: Machine, es: seq<Event>): (r: Machine) {
    if es == [] then m else Serve(Run(m, es[..|es| - 1]), es[|es| - 1])
  }

  // ---------- Reference: read off the events alone ----------

  /** The last value written to medeleg. */
  function MedelegAfter(es: seq<Event>, initial: Word): (v: Word) {
    if es == [] then initial
    else
      var e := es[|es| - 1];
      if e.WriteMedeleg? then e.value else MedelegAfter(es[..|es| - 1], initial)
  }

  /** The last privilege entered. */
  function PrivAfter(es: seq<Event>, initial: Priv): (p: Priv) {
    if es == [] then initial
    else
      var e := es[|es| - 1];
      if e.Enter? then e.priv else PrivAfter(es[..|es| - 1], initial)
  }

  /** The address of the last instruction that trapped. */
  function PcAfter(es: seq<Event>, initial: Word): (pc: Word) {
    if es == [] then initial
    else
      var e := es[|es| - 1];
      if e.Trap? then e.pc else PcAfter(es[..|es| - 1], initial)
  }

  /** Event i is a trap from below M-mode whose cause bit was set when it happened. */
  predicate Delegated(es: seq<Event>, i: nat, m: Machine)
    requires i < |es|
  {
    && es[i].Trap? && PrivAfter(es[..i], m.hart.priv) != M
    && es[i].cause < 64 && Bit(MedelegAfter(es[..i], m.hart.medeleg), es[i].cause)
  }

  function DelegatedTraps(es: seq<Event>, m: Machine): (s: set<nat>) {
    set i: nat | i < |es| && Delegated(es, i, m)
  }

  function OtherTraps(es: seq<Event>, m: Machine): (s: set<nat>) {
    set i: nat | i < |es| && es[i].Trap? && !Delegated(es, i, m)
  }

  // ---------- Main result ----------

  /** One event: the return undoes the privilege change, and exactly one count moves. */
  lemma ServeExact(m: Machine, e: Event)
    ensures var r := Serve(m, e);
            var toS := e.Trap? && GoesToS(m.hart, e.cause);
            && r.hart.priv == (if e.Enter? then e.priv else m.hart.priv)
            && r.hart.medeleg == (if e.WriteMedeleg? then e.value else m.hart.medeleg)
            && r.sTraps == m.sTraps + (if toS then 1 else 0)
            && r.mTraps == m.mTraps + (if e.Trap? && !toS then 1 else 0)
            && r.hart.pc == (if e.Trap? then e.pc else m.hart.pc)
  {
  }

  lemma SameOnPrefix(es: seq<Event>, n: nat, i: nat, m: Machine)
    requires i < n <= |es|
    ensures Delegated(es[..n], i, m) == Delegated(es, i, m)
  {
    assert es[..n][..i] == es[..i];
  }

  /** Adding one element to what a set comprehension over indices ranges over. */
  lemma GrowByOne(s: set<nat>, t: set<nat>, n: nat, hit: bool)
    requires forall i: nat :: i in t <==> i in s || (i == n && hit)
    requires n !in s
    ensures |t| == |s| + if hit then 1 else 0
  {
    assert t == if hit then s + {n} else s;
  }

  lemma LastEventExact(es: seq<Event>, m: Machine)
    requires es != []
    ensures var n := |es| - 1; var before := es[..n];
            && |DelegatedTraps(es, m)| == |DelegatedTraps(before, m)| + (if Delegated(es, n, m) then 1 else 0)
            && |OtherTraps(es, m)| == |OtherTraps(before, m)| + (if es[n].Trap? && !Delegated(es, n, m) then 1 else 0)
  {
    var n := |es| - 1;
    forall i: nat | i < n
      ensures Delegated(es[..n], i, m) == Delegated(es, i, m)
    {
      SameOnPrefix(es, n, i, m);
    }
    GrowByOne(DelegatedTraps(es[..n], m), DelegatedTraps(es, m), n, Delegated(es, n, m));
    GrowByOne(OtherTraps(es[..n], m), OtherTraps(es, m), n, es[n].Trap? && !Delegated(es, n, m));
  }

  /** The S count is the number of delegated traps and the M count the number of all others;
      delegation at each trap is decided by the last write, privilege by the last entry,
      because every return restores the privilege, and resumes the instruction, the trap recorded. */
  lemma {:induction false} CountsMatchDelegation(es: seq<Event>, m: Machine)
    ensures var r := Run(m, es);
            && r.sTraps == m.sTraps + |DelegatedTraps(es, m)|
            && r.mTraps == m.mTraps + |OtherTraps(es, m)|
            && r.hart.priv == PrivAfter(es, m.hart.priv)
            && r.hart.medeleg == MedelegAfter(es, m.hart.medeleg)
            && r.hart.pc == PcAfter(es, m.hart.pc)
    decreases |es|
  {
    if es == [] {
      assert DelegatedTraps(es, m) == {} && OtherTraps(es, m) == {};
    } else {
      var n := |es| - 1;
      CountsMatchDelegation(es[..n], m);
      LastEventExact(es, m);
      ServeExact(Run(m, es[..n]), es[n]);
    }
  }

  /** Code that stays in M-mode never traps to S-mode, whatever it writes to medeleg. */
  lemma {:induction false} MModeNeverTrapsToS(es: seq<Event>, m: Machine)
    requires m.hart.priv == M && forall i :: 0 <= i < |es| ==> es[i].Enter? ==> es[i].priv == M
    ensures Run(m, es).sTraps == m.sTraps && Run(m, es).hart.priv == M
    decreases |es|
  {
    if es != [] {
      MModeNeverTrapsToS(es[..|es| - 1], m);
    }
  }
}
