/** Trap delivery and return of one hart: sections 3.1.6.1, 3.1.8, 3.3.2 and 4.1.1 of the RISC-V
    Privileged specification, for the state the programs observe. */
module HartModel {
  import opened Words
  import opened Pmp

  datatype Hart = Hart(
    priv: Priv, pc: Word,
    medeleg: Word, mideleg: Word,
    sie: bool, spie: bool, spp: Priv, sepc: Word, scause: Word, stval: Word,
    mie: bool, mpie: bool, mpp: Priv, mepc: Word, mcause: Word, mtval: Word)

  const INTERRUPT: Word := 0x8000_0000_0000_0000

  /** A synchronous trap goes to S-mode iff it comes from S or U and its medeleg bit is set. */
  predicate GoesToS(h: Hart, cause: Word) {
    h.priv != M && cause < 64 && Bit(h.medeleg, cause)
  }

  function TrapToS(h: Hart, cause: Word, tval: Word): (r: Hart) {
    h.(priv := S, sepc := h.pc, scause := cause, stval := tval, spp := h.priv, spie := h.sie, sie := false)
  }

  function TrapToM(h: Hart, cause: Word, tval: Word): (r: Hart) {
    h.(priv := M, mepc := h.pc, mcause := cause, mtval := tval, mpp := h.priv, mpie := h.mie, mie := false)
  }

  function Raise(h: Hart, cause: Word, tval: Word): (r: Hart) {
    if GoesToS(h, cause) then TrapToS(h, cause, tval) else TrapToM(h, cause, tval)
  }

  function Sret(h: Hart): (r: Hart) {
    h.(priv := h.spp, pc := h.sepc, sie := h.spie, spie := true, spp := U)
  }

  function Mret(h: Hart): (r: Hart) {
    h.(priv := h.mpp, pc := h.mepc, mie := h.mpie, mpie := true, mpp := U)
  }

  /** sret after a trap to S-mode and mret after one to M-mode resume the interrupted instruction in
      the interrupted privilege with the interrupt enable it had; only the trap record and the
      fields the return resets differ. */
  lemma ReturnUndoesTrap(h: Hart, cause: Word, tval: Word)
    ensures Sret(TrapToS(h, cause, tval))
         == h.(sepc := h.pc, scause := cause, stval := tval, spp := U, spie := true)
    ensures Mret(TrapToM(h, cause, tval))
         == h.(mepc := h.pc, mcause := cause, mtval := tval, mpp := U, mpie := true)
  {
  }
}
