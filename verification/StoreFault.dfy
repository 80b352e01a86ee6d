/** The address spaces the two store-fault programs set up: the table construction, and the
    layered machine (walk, then protection) against a flat description of every access. */
module StoreFault {
  import opened Words
  import opened Pmp
  import opened Sv39

  /** Table construction in M-mode set-up. The arrays come zeroed from BSS clearing. */
  method BuildTables(rootPt: array<Word>, l1Id: array<Word>, l0Id: array<Word>, at: Placement, storePage: bool)
    requires rootPt.Length == TABLE_SIZE && l1Id.Length == TABLE_SIZE && l0Id.Length == TABLE_SIZE
    requires rootPt != l1Id && rootPt != l0Id && l1Id != l0Id
    requires forall i :: 0 <= i < TABLE_SIZE ==> rootPt[i] == 0 && l1Id[i] == 0 && l0Id[i] == 0
    requires WellPlaced(at)
    modifies rootPt, l1Id, l0Id
    ensures forall i :: 0 <= i < TABLE_SIZE ==> rootPt[i] == RootEntry(i, at.l1)
    ensures forall i :: 0 <= i < TABLE_SIZE ==> l1Id[i] == L1Entry(i, at.l0)
    ensures forall i :: 0 <= i < TABLE_SIZE ==> l0Id[i] == L0Entry(i, storePage)
    ensures rootPt[2] == at.l1 / 4096 * 1024 + 1 && l1Id[0] == at.l0 / 4096 * 1024 + 1
    ensures forall i :: 0 <= i < 128 ==> l0Id[i] == (0x8_0000 + i) * 1024 + 0xcf
    ensures l0Id[128] == if storePage then 0x8_0080 * 1024 + 0xc7 else 0
    ensures forall i :: 0 <= i < 512 ==> (i != 2 ==> rootPt[i] == 0) && (i > 0 ==> l1Id[i] == 0)
    ensures forall i :: 129 <= i < 512 ==> l0Id[i] == 0
  {
    rootPt[2] := Pointer(at.l1);
    l1Id[0] := Pointer(at.l0);
    var i := 0;
    while i < MAP_PAGES
      invariant 0 <= i <= MAP_PAGES
      invariant forall k :: 0 <= k < TABLE_SIZE ==> l0Id[k] == if k < i then L0Entry(k, storePage) else 0
      invariant forall k :: 0 <= k < TABLE_SIZE ==> rootPt[k] == RootEntry(k, at.l1)
      invariant forall k :: 0 <= k < TABLE_SIZE ==> l1Id[k] == L1Entry(k, at.l0)
    {
      l0Id[i] := Leaf(MAP_BASE / PAGE + i, RWX);
      i := i + 1;
    }
    if storePage {
      l0Id[STORE_VPN0] := Leaf(MAP_BASE / PAGE + STORE_VPN0, RW);
    }
  }

  /** Arrays as BuildTables leaves them, placed in memory, are the tables every walk below reads. */
  lemma PlacedTables(mem: nat -> Word, at: Placement, storePage: bool,
                     rootPt: seq<Word>, l1Id: seq<Word>, l0Id: seq<Word>)
    requires WellPlaced(at) && |rootPt| == |l1Id| == |l0Id| == TABLE_SIZE
    requires forall i :: 0 <= i < TABLE_SIZE ==>
               rootPt[i] == RootEntry(i, at.l1) && l1Id[i] == L1Entry(i, at.l0) && l0Id[i] == L0Entry(i, storePage)
    requires forall i :: 0 <= i < TABLE_SIZE ==> mem(at.root + 8 * i) == rootPt[i]
    requires forall i :: 0 <= i < TABLE_SIZE ==> mem(at.l1 + 8 * i) == l1Id[i]
    requires forall i :: 0 <= i < TABLE_SIZE ==> mem(at.l0 + 8 * i) == l0Id[i]
    ensures HoldsTables(mem, at, storePage)
  {
    forall i: nat | i < TABLE_SIZE
      ensures mem(at.root + 8 * i) == RootEntry(i, at.l1)
           && mem(at.l1 + 8 * i) == L1Entry(i, at.l0)
           && mem(at.l0 + 8 * i) == L0Entry(i, storePage)
    {
      assert rootPt[i] == RootEntry(i, at.l1) && l1Id[i] == L1Entry(i, at.l0) && l0Id[i] == L0Entry(i, storePage);
    }
  }

  // ---------- The access-fault program ----------

  /** Where its image may lie: page-aligned tables below 4 GiB and off the denied page. */
  predicate OffStorePage(at: Placement) {
    && WellPlaced(at)
    && at.root < 0x1_0000_0000 && at.l1 < 0x1_0000_0000 && at.l0 < 0x1_0000_0000
    && !InStorePage(at.root) && !InStorePage(at.l1) && !InStorePage(at.l0)
  }

  /** Every S-mode access, described without tables or protection entries. */
  function FlatAccess(va: Word, kind: Kind): (r: Outcome) {
    if 0x8000_0000 <= va < 0x8008_0000 then Done(va)
    else if InStorePage(va) && kind != Fetch then AccessFault
    else PageFault
  }

  /** A page-aligned table lies wholly on or wholly off the store page. */
  lemma SlotPlace(table: nat, i: nat)
    requires table % PAGE == 0 && table < 0x1_0000_0000 && !InStorePage(table) && i < TABLE_SIZE
    ensures var slot := table + 8 * i; slot % 8 == 0 && !InStorePage(slot) && slot < 0x1_0000_0000
  {
    var k := table / 4096;
    assert table == 4096 * k;
  }

  lemma SlotReadable(table: nat, i: nat)
    requires table % PAGE == 0 && table < 0x1_0000_0000 && !InStorePage(table) && i < TABLE_SIZE
    ensures Allows(DENY_STORE_PAGE, S, Load, table + 8 * i, 8)
  {
    SlotPlace(table, i);
    DenyStorePageExact(S, Load, table + 8 * i, 8);
  }

  lemma TableReadable(table: nat)
    requires table % PAGE == 0 && table < 0x1_0000_0000 && !InStorePage(table)
    ensures Readable(WalkerMay(DENY_STORE_PAGE), table)
  {
    forall i: nat | i < TABLE_SIZE
      ensures WalkerMay(DENY_STORE_PAGE)(table + 8 * i)
    {
      SlotReadable(table, i);
    }
  }

  /** Every naturally aligned S-mode access of every kind at every 64-bit address succeeds in
      place inside the identity window, is an access fault on the store page (a fetch there
      page-faults: the leaf has no X), and is a page fault anywhere else. */
  lemma LayeredIsFlat(mem: nat -> Word, at: Placement, va: Word, n: nat, kind: Kind)
    requires OffStorePage(at) && HoldsTables(mem, at, true) && Aligned(va, n)
    ensures Access(mem, DENY_STORE_PAGE, at.root, va, n, kind) == FlatAccess(va, kind)
  {
    TableReadable(at.root);
    TableReadable(at.l1);
    TableReadable(at.l0);
    WalkIsFlat(mem, WalkerMay(DENY_STORE_PAGE), at, va, true, kind);
    DenyStorePageExact(S, kind, va, n);
  }

  /** M-mode is not translated; the locked entry denies it the store page and nothing else. */
  lemma MModeDeniedOnlyOnStorePage(pa: nat, n: nat, kind: Kind)
    requires Aligned(pa, n)
    ensures Allows(DENY_STORE_PAGE, M, kind, pa, n) <==> !InStorePage(pa)
  {
    DenyStorePageExact(M, kind, pa, n);
  }

  // ---------- The page-fault program ----------

  lemma OpenReadable(table: nat)
    requires table % PAGE == 0 && table / PAGE < PPN_LIMIT
    ensures Readable(WalkerMay(OPEN_ALL), table)
  {
    Pow2Values();
    forall i: nat | i < TABLE_SIZE
      ensures WalkerMay(OPEN_ALL)(table + 8 * i)
    {
      OpenAllExact(S, Load, table + 8 * i, 8);
    }
  }

  lemma WindowOnly(mem: nat -> Word, pmp: Regs, at: Placement, va: Word, n: nat, kind: Kind)
    requires WellPlaced(at) && HoldsTables(mem, at, false)
    requires Readable(WalkerMay(pmp), at.root) && Readable(WalkerMay(pmp), at.l1) && Readable(WalkerMay(pmp), at.l0)
    requires 0x8000_0000 <= va < 0x8008_0000 ==> Allows(pmp, S, kind, va, n)
    ensures Access(mem, pmp, at.root, va, n, kind)
         == if 0x8000_0000 <= va < 0x8008_0000 then Done(va) else PageFault
  {
    WalkIsFlat(mem, WalkerMay(pmp), at, va, false, kind);
  }

  /** With leaf 128 left invalid and protection wide open, every S-mode access at every 64-bit
      address succeeds in place inside the identity window and page-faults outside it, for
      any page-aligned placement of the tables. */
  lemma InvalidLeafPageFaults(mem: nat -> Word, at: Placement, va: Word, n: nat, kind: Kind)
    requires WellPlaced(at) && HoldsTables(mem, at, false) && Aligned(va, n)
    ensures Access(mem, OPEN_ALL, at.root, va, n, kind)
         == if 0x8000_0000 <= va < 0x8008_0000 then Done(va) else PageFault
  {
    OpenReadable(at.root);
    OpenReadable(at.l1);
    OpenReadable(at.l0);
    if 0x8000_0000 <= va < 0x8008_0000 {
      Pow2Values();
      OpenAllExact(S, kind, va, n);
    }
    WindowOnly(mem, OPEN_ALL, at, va, n, kind);
  }
}
