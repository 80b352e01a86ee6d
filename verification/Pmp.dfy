/** Physical memory protection as section 3.7.1 of the RISC-V Privileged specification gives
    it: eight entries packed in pmpcfg0, lowest-numbered match wins. */
module Pmp {
  import opened Words
  import opened Numerals
  import opened Masks

  datatype Priv = U | S | M

  datatype Kind = Load | Store | Fetch

  /** pmpcfg0 and the pmpaddr registers its eight bytes configure. */
  datatype Regs = Regs(cfg: Word, addr: seq<nat>)

  const ENTRIES: nat := 8

  /** Half-open byte range. */
  datatype Range = Range(lo: int, hi: int)

  /** An access the hart issues: a power of two of at most eight bytes, naturally aligned. */
  predicate Aligned(pa: nat, n: nat) {
    n == 1 || (n == 2 && pa % 2 == 0) || (n == 4 && pa % 4 == 0) || (n == 8 && pa % 8 == 0)
  }

  function CfgByte(cfg: nat, i: nat): (b: nat)
    ensures b < 256
  {
    if i == 0 then cfg % 256 else CfgByte(cfg / 256, i - 1)
  }

  function TrailingOnes(a: nat): (k: nat) {
    if a % 2 == 0 then 0 else 1 + TrailingOnes(a / 2)
  }

  function AddrOf(p: Regs, i: nat): (a: nat) {
    if i < |p.addr| then p.addr[i] else 0
  }

  /** The bytes entry i covers: off, top-of-range, four bytes, or a naturally aligned power of two. */
  function Covers(p: Regs, i: nat): (r: Range) {
    var top := AddrOf(p, i);
    match (CfgByte(p.cfg, i) / 8) % 4
    case 0 => Range(0, 0)
    case 1 =>
      var low := if i == 0 then 0 else AddrOf(p, i - 1);
      if low < top then Range(4 * low, 4 * top) else Range(0, 0)
    case 2 => Range(4 * top, 4 * top + 4)
    case _ =>
      var size := 4 * Pow2(TrailingOnes(top) + 1);
      Range((4 * top / size) * size, (4 * top / size) * size + size)
  }

  predicate Locked(p: Regs, i: nat) {
    CfgByte(p.cfg, i) / 128 == 1
  }

  predicate Permits(p: Regs, i: nat, kind: Kind) {
    var c := CfgByte(p.cfg, i);
    match kind
    case Load => c % 2 == 1
    case Store => (c / 2) % 2 == 1
    case Fetch => (c / 4) % 2 == 1
  }

  /** The verdict of entries i and up on the access [pa, pa + n). */
  predicate AllowsFrom(p: Regs, i: nat, priv: Priv, kind: Kind, pa: nat, n: nat)
    decreases ENTRIES - i
  {
    if i >= ENTRIES then priv == M
    else
      var r := Covers(p, i);
      if pa < r.hi && r.lo < pa + n then
        && r.lo <= pa && pa + n <= r.hi
        && ((priv == M && !Locked(p, i)) || Permits(p, i, kind))
      else AllowsFrom(p, i + 1, priv, kind, pa, n)
  }

  predicate Allows(p: Regs, priv: Priv, kind: Kind, pa: nat, n: nat) {
    AllowsFrom(p, 0, priv, kind, pa, n)
  }

  // ---------- What the entries mean, in the bits of pmpcfg0 ----------

  lemma ByteBit(v: nat, k: nat)
    requires k < 8
    ensures Bit(v % 256, k) <==> Bit(v, k)
  {
    assert Pow2(8) == 256;
    RemainderBits(v, 8, k, v / 256, v % 256);
  }

  lemma BitAbove(v: nat, k: nat)
    ensures Bit(v, k + 8) <==> Bit(v / 256, k)
  {
    var h := v / 2;
    var q := h / 2;
    var e := q / 2;
    var s := e / 2;
    BitShift(v, k + 8);
    BitShift(h, k + 7);
    BitShift(q, k + 6);
    BitShift(e, k + 5);
    BitShift(s, k + 4);
    BitShift(s / 2, k + 3);
    BitShift(s / 2 / 2, k + 2);
    BitShift(s / 2 / 2 / 2, k + 1);
    assert s == v / 16;
    assert s / 2 / 2 / 2 / 2 == v / 256;
  }

  /** Entry i's configuration is byte i of pmpcfg0. */
  lemma {:induction false} CfgByteBits(cfg: nat, i: nat, k: nat)
    requires k < 8
    ensures Bit(CfgByte(cfg, i), k) <==> Bit(cfg, 8 * i + k)
    decreases i
  {
    if i == 0 {
      ByteBit(cfg, k);
    } else {
      CfgByteBits(cfg / 256, i - 1, k);
      BitAbove(cfg, 8 * (i - 1) + k);
    }
  }

  /** R, W and X are bits 0, 1 and 2 of the byte, L is bit 7. */
  lemma PermissionBits(p: Regs, i: nat, kind: Kind)
    ensures Permits(p, i, kind) <==> Bit(p.cfg, 8 * i + match kind case Load => 0 case Store => 1 case Fetch => 2)
    ensures Locked(p, i) <==> Bit(p.cfg, 8 * i + 7)
  {
    CfgByteBits(p.cfg, i, match kind case Load => 0 case Store => 1 case Fetch => 2);
    CfgByteBits(p.cfg, i, 7);
    assert Pow2(0) == 1 && Pow2(1) == 2 && Pow2(2) == 4 && Pow2(7) == 128;
  }

  /** Entry i has a byte in common with the access. */
  predicate Touches(p: Regs, i: nat, pa: nat, n: nat) {
    var r := Covers(p, i); pa < r.hi && r.lo < pa + n
  }

  lemma {:induction false} SkipUntouched(p: Regs, i: nat, j: nat, priv: Priv, kind: Kind, pa: nat, n: nat)
    requires i <= j <= ENTRIES && forall k :: i <= k < j ==> !Touches(p, k, pa, n)
    ensures AllowsFrom(p, i, priv, kind, pa, n) <==> AllowsFrom(p, j, priv, kind, pa, n)
    decreases j - i
  {
    if i < j {
      assert !Touches(p, i, pa, n);
      SkipUntouched(p, i + 1, j, priv, kind, pa, n);
    }
  }

  /** The lowest-numbered entry that the access touches decides: it must contain the whole access and
      grant it, or be unlocked with the hart in M-mode. */
  lemma LowestMatchDecides(p: Regs, i: nat, priv: Priv, kind: Kind, pa: nat, n: nat)
    requires i < 8 && Touches(p, i, pa, n) && forall k :: 0 <= k < i ==> !Touches(p, k, pa, n)
    ensures Allows(p, priv, kind, pa, n) <==>
              && Covers(p, i).lo <= pa && pa + n <= Covers(p, i).hi
              && (|| (priv == M && !Bit(p.cfg, 8 * i + 7))
                  || Bit(p.cfg, 8 * i + match kind case Load => 0 case Store => 1 case Fetch => 2))
  {
    SkipUntouched(p, 0, i, priv, kind, pa, n);
    PermissionBits(p, i, kind);
  }

  /** An access that touches no entry is M-mode's alone. */
  lemma UnmatchedIsMachineOnly(p: Regs, priv: Priv, kind: Kind, pa: nat, n: nat)
    requires forall k :: 0 <= k < 8 ==> !Touches(p, k, pa, n)
    ensures Allows(p, priv, kind, pa, n) <==> priv == M
  {
    SkipUntouched(p, 0, 8, priv, kind, pa, n);
  }

  lemma TrailingOnesStep(a: nat)
    ensures TrailingOnes(2 * a) == 0 && TrailingOnes(2 * a + 1) == 1 + TrailingOnes(a)
  {
  }

  lemma {:induction false} TrailingOnesOf(m: nat, k: nat)
    ensures TrailingOnes(m * Pow2(k + 1) + Pow2(k) - 1) == k
    decreases k
  {
    TwiceProduct(m, Pow2(k));
    if k == 0 {
      TrailingOnesStep(m);
      assert Pow2(1) == 2;
    } else {
      TrailingOnesOf(m, k - 1);
      TrailingOnesStep(m * Pow2(k) + Pow2(k - 1) - 1);
    }
  }

  /** A NAPOT entry covers the naturally aligned power of two its address register encodes: 8 * 2^k
      bytes at the m-th multiple of that size. */
  lemma NapotCovers(p: Regs, i: nat, m: nat, k: nat)
    requires (CfgByte(p.cfg, i) / 8) % 4 == 3 && AddrOf(p, i) == m * Pow2(k + 1) + Pow2(k) - 1
    ensures Covers(p, i) == Range(m * (8 * Pow2(k)), m * (8 * Pow2(k)) + 8 * Pow2(k))
  {
    TrailingOnesOf(m, k);
    NapotArithmetic(m, Pow2(k), AddrOf(p, i));
  }

  lemma NapotArithmetic(m: nat, q: nat, top: nat)
    requires q > 0 && top == m * (2 * q) + q - 1
    ensures 4 * top / (8 * q) * (8 * q) == m * (8 * q)
  {
    TwiceProduct(m, 4 * q);
    TwiceProduct(m, 2 * q);
    assert 4 * top == m * (8 * q) + (4 * q - 4);
    DivModUnique(m, 4 * q - 4, 8 * q);
  }

  // ---------- The two layouts the programs set up ----------

  /** Allow below the store page, a locked deny of the store page, allow up to 4 GiB. */
  const DENY_STORE_PAGE: Regs := Regs(0x000f_880f, [0x2002_0000, 0x2002_0400, 0x4000_0000])

  /** One NAPOT entry over everything: `csrw pmpaddr0, -1` keeps the register's 54 bits. */
  const OPEN_ALL: Regs := Regs(0x1f, [0x3f_ffff_ffff_ffff])

  predicate InStorePage(a: nat) {
    0x8008_0000 <= a < 0x8008_1000
  }

  lemma DenyCfg(i: nat)
    ensures CfgByte(DENY_STORE_PAGE.cfg, 0) == 0x0f
    ensures CfgByte(DENY_STORE_PAGE.cfg, 1) == 0x88
    ensures CfgByte(DENY_STORE_PAGE.cfg, 2) == 0x0f
    ensures i >= 3 ==> CfgByte(DENY_STORE_PAGE.cfg, i) == 0
  {
    var c := DENY_STORE_PAGE.cfg;
    assert CfgByte(c, 1) == CfgByte(0x0f88, 0);
    assert CfgByte(c, 2) == CfgByte(0x0f88, 1) == CfgByte(0x0f, 0);
    if i >= 3 {
      assert CfgByte(c, i) == CfgByte(0x0f88, i - 1) == CfgByte(0x0f, i - 2) == CfgByte(0, i - 3);
      ZeroCfg(i - 3);
    }
  }

  lemma DenyLayout()
    ensures Covers(DENY_STORE_PAGE, 0) == Range(0, 0x8008_0000)
    ensures Covers(DENY_STORE_PAGE, 1) == Range(0x8008_0000, 0x8008_1000)
    ensures Covers(DENY_STORE_PAGE, 2) == Range(0x8008_1000, 0x1_0000_0000)
    ensures forall i :: 3 <= i < ENTRIES ==> Covers(DENY_STORE_PAGE, i) == Range(0, 0)
  {
    DenyCfg(0);
    forall i | 3 <= i < ENTRIES
      ensures Covers(DENY_STORE_PAGE, i) == Range(0, 0)
    {
      DenyCfg(i);
    }
  }

  lemma {:induction false} ZeroCfg(i: nat)
    ensures CfgByte(0, i) == 0
  {
    if i > 0 {
      ZeroCfg(i - 1);
    }
  }

  /** An entry that covers nothing leaves the decision to the next one. */
  lemma SkipEmpty(p: Regs, i: nat, priv: Priv, kind: Kind, pa: nat, n: nat)
    requires i <= ENTRIES
    requires forall k :: i <= k < ENTRIES ==> Covers(p, k) == Range(0, 0)
    ensures AllowsFrom(p, i, priv, kind, pa, n) <==> priv == M
    decreases ENTRIES - i
  {
    if i < ENTRIES {
      SkipEmpty(p, i + 1, priv, kind, pa, n);
    }
  }

  /** An aligned access lies wholly below an eight-aligned address or wholly above it. */
  lemma AlignedFits(pa: nat, n: nat, top: nat)
    requires Aligned(pa, n) && top % 8 == 0
    ensures pa < top <==> pa + n <= top
  {
  }

  lemma AllowDenyAllow(p: Regs, priv: Priv, kind: Kind, pa: nat, n: nat)
    requires Covers(p, 0) == Range(0, 0x8008_0000) && CfgByte(p.cfg, 0) == 0x0f
    requires Covers(p, 1) == Range(0x8008_0000, 0x8008_1000) && CfgByte(p.cfg, 1) == 0x88
    requires Covers(p, 2) == Range(0x8008_1000, 0x1_0000_0000) && CfgByte(p.cfg, 2) == 0x0f
    requires AllowsFrom(p, 3, priv, kind, pa, n) <==> priv == M
    requires n > 0 && (pa < 0x8008_0000 ==> pa + n <= 0x8008_0000)
    requires (pa < 0x8008_1000 ==> pa + n <= 0x8008_1000) && (pa < 0x1_0000_0000 ==> pa + n <= 0x1_0000_0000)
    ensures Allows(p, priv, kind, pa, n) <==> !InStorePage(pa) && (priv == M || pa < 0x1_0000_0000)
  {
    if pa >= 0x8008_0000 {
      DenyAllow(p, priv, kind, pa, n);
    }
  }

  lemma DenyAllow(p: Regs, priv: Priv, kind: Kind, pa: nat, n: nat)
    requires Covers(p, 1) == Range(0x8008_0000, 0x8008_1000) && CfgByte(p.cfg, 1) == 0x88
    requires Covers(p, 2) == Range(0x8008_1000, 0x1_0000_0000) && CfgByte(p.cfg, 2) == 0x0f
    requires AllowsFrom(p, 3, priv, kind, pa, n) <==> priv == M
    requires n > 0 && pa >= 0x8008_0000
    requires (pa < 0x8008_1000 ==> pa + n <= 0x8008_1000) && (pa < 0x1_0000_0000 ==> pa + n <= 0x1_0000_0000)
    ensures AllowsFrom(p, 1, priv, kind, pa, n) <==> pa >= 0x8008_1000 && (priv == M || pa < 0x1_0000_0000)
  {
  }

  /** The three-entry layout, over every aligned access of every kind: S- and U-mode reach
      exactly the first 4 GiB less the store page, M-mode everything but the store page. */
  lemma DenyStorePageExact(priv: Priv, kind: Kind, pa: nat, n: nat)
    requires Aligned(pa, n)
    ensures Allows(DENY_STORE_PAGE, priv, kind, pa, n)
       <==> !InStorePage(pa) && (priv == M || pa < 0x1_0000_0000)
  {
    DenyCfg(0);
    DenyLayout();
    SkipEmpty(DENY_STORE_PAGE, 3, priv, kind, pa, n);
    AlignedFits(pa, n, 0x8008_0000);
    AlignedFits(pa, n, 0x8008_1000);
    AlignedFits(pa, n, 0x1_0000_0000);
    AllowDenyAllow(DENY_STORE_PAGE, priv, kind, pa, n);
  }

  lemma {:induction false} OnesHaveOnes(k: nat)
    ensures TrailingOnes(Pow2(k) - 1) == k
  {
    if k > 0 {
      OnesHaveOnes(k - 1);
      assert Pow2(k) - 1 == 2 * (Pow2(k - 1) - 1) + 1;
    }
  }

  lemma OpenCovers()
    ensures Covers(OPEN_ALL, 0) == Range(0, 4 * Pow2(55)) && CfgByte(OPEN_ALL.cfg, 0) == 0x1f
  {
    Pow2Values();
    OnesHaveOnes(54);
    var top := AddrOf(OPEN_ALL, 0);
    assert top == Pow2(54) - 1;
    assert 4 * top / (4 * Pow2(55)) == 0;
  }

  lemma FirstEntryDecides(p: Regs, hi: nat, priv: Priv, kind: Kind, pa: nat, n: nat)
    requires Covers(p, 0) == Range(0, hi) && CfgByte(p.cfg, 0) == 0x1f && pa + n <= hi && n > 0
    ensures Allows(p, priv, kind, pa, n)
  {
  }

  /** The single NAPOT entry opens every 56-bit physical address to every mode. */
  lemma OpenAllExact(priv: Priv, kind: Kind, pa: nat, n: nat)
    requires pa + n <= Pow2(56) && n > 0
    ensures Allows(OPEN_ALL, priv, kind, pa, n)
  {
    OpenCovers();
    assert Pow2(56) == 2 * Pow2(55);
    FirstEntryDecides(OPEN_ALL, 4 * Pow2(55), priv, kind, pa, n);
  }

  lemma Pow2Values()
    ensures Pow2(54) == 0x40_0000_0000_0000
    ensures Pow2(55) == 0x80_0000_0000_0000
    ensures Pow2(56) == 0x100_0000_0000_0000
  {
    assert Pow2(9) == 512;
    Pow2Add(9, 9);
    Pow2Add(18, 9);
    Pow2Add(27, 27);
  }
}
