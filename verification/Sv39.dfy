/** Sv39 translation as sections 4.3.2 and 4.4 of the RISC-V Privileged specification give it,
    the hand-built three-level table, and the flat map the table implements. */
module Sv39 {
  import opened Words
  import opened Masks
  import opened Pmp

  const PAGE: nat := 4096
  const TABLE_SIZE: nat := 512
  const PPN_LIMIT: nat := 0x1000_0000_0000  // 44-bit page numbers

  const PTE_V: nat := 0x01
  const PTE_R: nat := 0x02
  const PTE_W: nat := 0x04
  const PTE_X: nat := 0x08
  const PTE_U: nat := 0x10
  const PTE_A: nat := 0x40
  const PTE_D: nat := 0x80

  const MAP_BASE: nat := 0x8000_0000
  const MAP_PAGES: nat := 128
  const STORE_VPN0: nat := 128

  datatype Outcome = Done(pa: nat) | PageFault | AccessFault

  /** Flag `f`, a power of two, among the low ten bits of an entry. */
  predicate Has(flags: nat, f: nat)
    requires f > 0
  {
    (flags / f) % 2 == 1
  }

  function Flags(pte: Word): (n: nat) {
    pte % 1024
  }

  function Ppn(pte: Word): (n: nat) {
    (pte / 1024) % PPN_LIMIT
  }

  /** The virtual page number field that indexes the table at `level`. */
  function Vpn(va: Word, level: nat): (i: nat)
    requires level <= 2
    ensures i < TABLE_SIZE
  {
    match level
    case 0 => (va / 0x1000) % 512
    case 1 => (va / 0x20_0000) % 512
    case _ => (va / 0x4000_0000) % 512
  }

  /** Bytes a leaf at `level` maps. */
  function Span(level: nat): (n: nat)
    requires level <= 2
    ensures n > 0
  {
    match level case 0 => 0x1000 case 1 => 0x20_0000 case _ => 0x4000_0000
  }

  /** Bits 63 to 38 all equal. */
  predicate Canonical(va: Word) {
    va / 0x40_0000_0000 == 0 || va / 0x40_0000_0000 == 0x3ff_ffff
  }

  predicate LeafPermits(flags: nat, kind: Kind) {
    && !Has(flags, PTE_U) && Has(flags, PTE_A)
    && match kind
       case Load => Has(flags, PTE_R)
       case Store => Has(flags, PTE_W) && Has(flags, PTE_D)
       case Fetch => Has(flags, PTE_X)
  }

  /** What one entry tells the walker. */
  datatype Step = Fault | Maps(pa: nat) | Descend(table: nat)

  function Decode(pte: Word, va: Word, level: nat, kind: Kind): (r: Step)
    requires level <= 2
  {
    var flags := Flags(pte);
    if !Has(flags, PTE_V) || (!Has(flags, PTE_R) && Has(flags, PTE_W)) || pte / 0x40_0000_0000_0000 != 0 then Fault
    else if Has(flags, PTE_R) || Has(flags, PTE_X) then
      if !LeafPermits(flags, kind) || (Ppn(pte) * PAGE) % Span(level) != 0 then Fault
      else Maps(Ppn(pte) * PAGE + va % Span(level))
    else if level == 0 || Has(flags, PTE_A) || Has(flags, PTE_D) || Has(flags, PTE_U) then Fault
    else Descend(Ppn(pte) * PAGE)
  }

  /** The table walk from the table at physical address `table`, for S-mode; `may` says which
      doublewords the protection unit lets the walker read. */
  function Walk(mem: nat -> Word, may: nat -> bool, table: nat, va: Word, level: nat, kind: Kind): (r: Outcome)
    requires level <= 2
    decreases level
  {
    var slot := table + 8 * Vpn(va, level);
    if !may(slot) then AccessFault else
    match Decode(mem(slot), va, level, kind)
    case Fault => PageFault
    case Maps(pa) => Done(pa)
    case Descend(next) => if level == 0 then PageFault else Walk(mem, may, next, va, level - 1, kind)
  }

  function Translate(mem: nat -> Word, may: nat -> bool, root: nat, va: Word, kind: Kind): (r: Outcome) {
    if Canonical(va) then Walk(mem, may, root, va, 2, kind) else PageFault
  }

  function WalkerMay(pmp: Regs): (may: nat -> bool) {
    (slot: nat) => Allows(pmp, S, Load, slot, 8)
  }

  /** An S-mode access of n bytes: translation, then protection of the physical address. */
  function Access(mem: nat -> Word, pmp: Regs, root: nat, va: Word, n: nat, kind: Kind): (r: Outcome) {
    var t := Translate(mem, WalkerMay(pmp), root, va, kind);
    if t.Done? && !Allows(pmp, S, kind, t.pa, n) then AccessFault else t
  }

  lemma FlagBit(pte: Word, k: nat, f: nat)
    requires k < 10 && f == Pow2(k)
    ensures Has(Flags(pte), f) <==> Bit(pte, k)
  {
    assert Pow2(10) == 1024;
    RemainderBits(pte, 10, k, pte / 1024, pte % 1024);
  }

  lemma FlagBits(pte: Word)
    ensures Has(Flags(pte), PTE_V) <==> Bit(pte, 0)
    ensures Has(Flags(pte), PTE_R) <==> Bit(pte, 1)
    ensures Has(Flags(pte), PTE_W) <==> Bit(pte, 2)
    ensures Has(Flags(pte), PTE_X) <==> Bit(pte, 3)
    ensures Has(Flags(pte), PTE_U) <==> Bit(pte, 4)
    ensures Has(Flags(pte), PTE_A) <==> Bit(pte, 6)
    ensures Has(Flags(pte), PTE_D) <==> Bit(pte, 7)
  {
    FlagBit(pte, 0, 1);
    FlagBit(pte, 1, 2);
    FlagBit(pte, 2, 4);
    FlagBit(pte, 3, 8);
    FlagBit(pte, 4, 16);
    FlagBit(pte, 6, 64);
    FlagBit(pte, 7, 128);
  }

  /** When an entry maps: valid, no reserved bit or combination, readable or executable, not a user
      page, accessed, with the access's own permission (and dirty for a store), and aligned to the
      4 KiB, 2 MiB or 1 GiB it maps; and where to. */
  lemma MapsIff(pte: Word, va: Word, level: nat, kind: Kind)
    requires level <= 2
    ensures Decode(pte, va, level, kind).Maps? <==>
              && Bit(pte, 0) && (Bit(pte, 2) ==> Bit(pte, 1)) && pte < 0x40_0000_0000_0000
              && (Bit(pte, 1) || Bit(pte, 3)) && !Bit(pte, 4) && Bit(pte, 6)
              && (kind == Load ==> Bit(pte, 1)) && (kind == Store ==> Bit(pte, 2) && Bit(pte, 7))
              && (kind == Fetch ==> Bit(pte, 3))
              && (level == 1 ==> pte / 1024 % 0x1000_0000_0000 % 512 == 0)
              && (level == 2 ==> pte / 1024 % 0x1000_0000_0000 % 0x4_0000 == 0)
    ensures Decode(pte, va, level, kind).Maps? ==>
              Decode(pte, va, level, kind).pa
              == pte / 1024 % 0x1000_0000_0000 * 4096
                 + va % (if level == 0 then 0x1000 else if level == 1 then 0x20_0000 else 0x4000_0000)
  {
    FlagBits(pte);
    AlignedPage(Ppn(pte));
  }

  lemma AlignedPage(n: nat)
    ensures (n * 4096) % 0x1000 == 0
    ensures (n * 4096) % 0x20_0000 == 0 <==> n % 512 == 0
    ensures (n * 4096) % 0x4000_0000 == 0 <==> n % 0x4_0000 == 0
  {
    AlignedTwoMiB(n);
    AlignedGiB(n);
  }

  lemma AlignedTwoMiB(n: nat)
    ensures (n * 4096) % 0x20_0000 == n % 512 * 4096
  {
    var a, r := n / 512, n % 512;
    assert n * 4096 == 0x20_0000 * a + 4096 * r && 0 <= 4096 * r < 0x20_0000;
  }

  lemma AlignedGiB(n: nat)
    ensures (n * 4096) % 0x4000_0000 == n % 0x4_0000 * 4096
  {
    var a, r := n / 0x4_0000, n % 0x4_0000;
    assert n * 4096 == 0x4000_0000 * a + 4096 * r && 0 <= 4096 * r < 0x4000_0000;
  }

  /** When an entry points on: valid, neither readable nor writable nor executable, not at the last
      level, with no reserved bit. */
  lemma DescendsIff(pte: Word, va: Word, level: nat, kind: Kind)
    requires level <= 2
    ensures Decode(pte, va, level, kind).Descend? <==>
              && Bit(pte, 0) && !Bit(pte, 1) && !Bit(pte, 2) && !Bit(pte, 3) && pte < 0x40_0000_0000_0000
              && level > 0 && !Bit(pte, 4) && !Bit(pte, 6) && !Bit(pte, 7)
  {
    FlagBits(pte);
  }

  // ---------- The table the programs build ----------

  function Pointer(table: nat): (pte: Word)
    requires table / PAGE < PPN_LIMIT
  {
    (table / PAGE) * 1024 + PTE_V
  }

  function Leaf(ppn: nat, flags: nat): (pte: Word)
    requires ppn < PPN_LIMIT && flags < 1024
  {
    ppn * 1024 + flags
  }

  const RWX: nat := PTE_V + PTE_R + PTE_W + PTE_X + PTE_A + PTE_D
  const RW: nat := PTE_V + PTE_R + PTE_W + PTE_A + PTE_D

  function RootEntry(i: nat, l1: nat): (pte: Word)
    requires l1 / PAGE < PPN_LIMIT
  {
    if i == 2 then Pointer(l1) else 0
  }

  function L1Entry(i: nat, l0: nat): (pte: Word)
    requires l0 / PAGE < PPN_LIMIT
  {
    if i == 0 then Pointer(l0) else 0
  }

  /** `storePage` says whether leaf 128 is the valid read-write leaf or stays invalid. */
  function L0Entry(i: nat, storePage: bool): (pte: Word) {
    if i < MAP_PAGES then Leaf(MAP_BASE / PAGE + i, RWX)
    else if i == STORE_VPN0 && storePage then Leaf(MAP_BASE / PAGE + i, RW)
    else 0
  }

  /** Where the linker put the three page-aligned tables. */
  datatype Placement = Placement(root: nat, l1: nat, l0: nat)

  predicate WellPlaced(at: Placement) {
    && at.root % PAGE == 0 && at.l1 % PAGE == 0 && at.l0 % PAGE == 0
    && at.root / PAGE < PPN_LIMIT && at.l1 / PAGE < PPN_LIMIT && at.l0 / PAGE < PPN_LIMIT
  }

  /** Memory holds the three tables at their places; everything else in it is arbitrary. */
  ghost predicate HoldsTables(mem: nat -> Word, at: Placement, storePage: bool)
    requires WellPlaced(at)
  {
    forall i: nat | i < TABLE_SIZE ::
      && mem(at.root + 8 * i) == RootEntry(i, at.l1)
      && mem(at.l1 + 8 * i) == L1Entry(i, at.l0)
      && mem(at.l0 + 8 * i) == L0Entry(i, storePage)
  }

  /** The protection unit lets the walker read the page at `table`. */
  ghost predicate Readable(may: nat -> bool, table: nat) {
    forall i: nat | i < TABLE_SIZE :: may(table + 8 * i)
  }

  /** The flat description of the same translation. */
  function FlatTranslate(va: Word, storePage: bool, kind: Kind): (r: Outcome) {
    if 0x8000_0000 <= va < 0x8008_0000 then Done(va)
    else if InStorePage(va) && storePage && kind != Fetch then Done(va)
    else PageFault
  }

  // ---------- The walk refines the flat map ----------

  lemma LeafFields(ppn: nat, flags: nat)
    requires ppn < PPN_LIMIT && flags < 1024
    ensures Ppn(Leaf(ppn, flags)) == ppn
    ensures Flags(Leaf(ppn, flags)) == flags
    ensures Leaf(ppn, flags) / 0x40_0000_0000_0000 == 0
  {
  }

  lemma DecodePointer(table: nat, va: Word, level: nat, kind: Kind)
    requires 1 <= level <= 2 && table % PAGE == 0 && table / PAGE < PPN_LIMIT
    ensures Decode(Pointer(table), va, level, kind) == Descend(table)
  {
    LeafFields(table / PAGE, PTE_V);
    assert Pointer(table) == Leaf(table / PAGE, PTE_V);
  }

  lemma DecodeZero(va: Word, level: nat, kind: Kind)
    requires level <= 2
    ensures Decode(0, va, level, kind) == Fault
  {
  }

  /** What the two kinds of leaf permit. */
  lemma LeafFlags(kind: Kind)
    ensures Has(RWX, PTE_V) && Has(RWX, PTE_R) && LeafPermits(RWX, kind)
    ensures Has(RW, PTE_V) && Has(RW, PTE_R) && (LeafPermits(RW, kind) <==> kind != Fetch)
  {
  }

  lemma DecodeLeaf(ppn: nat, flags: nat, va: Word, kind: Kind)
    requires ppn < PPN_LIMIT && (flags == RWX || (flags == RW))
    ensures Decode(Leaf(ppn, flags), va, 0, kind)
         == if flags == RW && kind == Fetch then Fault else Maps(ppn * PAGE + va % PAGE)
  {
    LeafFields(ppn, flags);
    LeafFlags(kind);
    assert (ppn * 4096) % 4096 == 0;
  }

  /** A canonical address selects root entry 2, level-1 entry 0 and level-0 entry i exactly when
      it lies in page i above the base. */
  lemma VpnsOfWindow(va: Word)
    requires Canonical(va)
    ensures Vpn(va, 2) == 2 && Vpn(va, 1) == 0 <==> 0x8000_0000 <= va < 0x8020_0000
    ensures 0x8000_0000 <= va < 0x8020_0000 ==> Vpn(va, 0) == (va - 0x8000_0000) / PAGE
  {
    var g := va / 0x4000_0000;
    assert va / 0x40_0000_0000 == g / 256;
    assert Vpn(va, 2) == 2 <==> g == 2;
    if g == 2 {
      var m := (va - 0x8000_0000) / 0x20_0000;
      assert va / 0x20_0000 == 1024 + m && m < 512;
    }
  }

  /** What the level-0 entry of page i says. */
  lemma DecodeL0(i: nat, va: Word, storePage: bool, kind: Kind)
    ensures Decode(L0Entry(i, storePage), va, 0, kind)
         == if i < MAP_PAGES || (i == STORE_VPN0 && storePage && kind != Fetch)
            then Maps((MAP_BASE / PAGE + i) * PAGE + va % PAGE) else Fault
  {
    if i < MAP_PAGES {
      DecodeLeaf(MAP_BASE / PAGE + i, RWX, va, kind);
    } else if i == STORE_VPN0 && storePage {
      DecodeLeaf(MAP_BASE / PAGE + i, RW, va, kind);
    } else {
      DecodeZero(va, 0, kind);
    }
  }

  lemma WalkL0(mem: nat -> Word, may: nat -> bool, at: Placement, va: Word, storePage: bool, kind: Kind)
    requires WellPlaced(at) && HoldsTables(mem, at, storePage) && Readable(may, at.l0)
    requires 0x8000_0000 <= va < 0x8020_0000
    ensures Walk(mem, may, at.l0, va, 0, kind) == FlatTranslate(va, storePage, kind)
  {
    VpnsOfWindow(va);
    var i := Vpn(va, 0);
    assert mem(at.l0 + 8 * i) == L0Entry(i, storePage);
    assert may(at.l0 + 8 * i);
    DecodeL0(i, va, storePage, kind);
  }

  lemma WalkL1(mem: nat -> Word, may: nat -> bool, at: Placement, va: Word, storePage: bool, kind: Kind)
    requires WellPlaced(at) && HoldsTables(mem, at, storePage) && Readable(may, at.l0) && Readable(may, at.l1)
    requires Canonical(va) && Vpn(va, 2) == 2
    ensures Walk(mem, may, at.l1, va, 1, kind) == FlatTranslate(va, storePage, kind)
  {
    VpnsOfWindow(va);
    var i := Vpn(va, 1);
    assert mem(at.l1 + 8 * i) == L1Entry(i, at.l0);
    assert may(at.l1 + 8 * i);
    DecodeZero(va, 1, kind);
    if i == 0 {
      DecodePointer(at.l0, va, 1, kind);
      WalkL0(mem, may, at, va, storePage, kind);
    }
  }

  /** For any page-aligned placement the walker can read, any other memory contents, every
      64-bit address and every kind of access, the walk gives exactly the flat map's answer. */
  lemma WalkIsFlat(mem: nat -> Word, may: nat -> bool, at: Placement, va: Word, storePage: bool, kind: Kind)
    requires WellPlaced(at) && HoldsTables(mem, at, storePage)
    requires Readable(may, at.root) && Readable(may, at.l1) && Readable(may, at.l0)
    ensures Translate(mem, may, at.root, va, kind) == FlatTranslate(va, storePage, kind)
  {
    if Canonical(va) {
      VpnsOfWindow(va);
      var i := Vpn(va, 2);
      assert mem(at.root + 8 * i) == RootEntry(i, at.l1);
      assert may(at.root + 8 * i);
      DecodeZero(va, 2, kind);
      if i == 2 {
        DecodePointer(at.l1, va, 2, kind);
        WalkL1(mem, may, at, va, storePage, kind);
      }
    }
  }
}
