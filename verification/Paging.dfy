/** arch/x86_64/mm/paging.h and the page-table walk of kernel/mm/vmm.c: four levels of
    512-entry tables, as Intel SDM volume 3A section 4.5 lays them out. */
module Paging {
  import opened Wrappers
  import opened Words

  const PT_ENTRIES: nat := 512
  const PTE_PRESENT: nat := 1
  const PTE_WRITABLE: nat := 2
  const PTE_HUGE: nat := 128
  const PTE_ADDR_MASK: nat := 0x000F_FFFF_FFFF_F000
  const VIRTUAL_PAGES: nat := 0x10_0000_0000
  const PHYSICAL_LIMIT: nat := 0x10_0000_0000_0000

  // ---- the macros of paging.h ----

  function Pml4Index(va: nat): nat {
    BitAnd(ShiftRight(va, 39), 0x1FF)
  }

  function PdptIndex(va: nat): nat {
    BitAnd(ShiftRight(va, 30), 0x1FF)
  }

  function PdIndex(va: nat): nat {
    BitAnd(ShiftRight(va, 21), 0x1FF)
  }

  function PtIndex(va: nat): nat {
    BitAnd(ShiftRight(va, 12), 0x1FF)
  }

  function PageOffset(va: nat): nat {
    BitAnd(va, 0xFFF)
  }

  function PteAddr(pte: nat): nat {
    BitAnd(pte, PTE_ADDR_MASK)
  }

  function PteFlags(pte: nat): nat
    requires pte < WORD_LIMIT
  {
    BitAnd(pte, BitNot(PTE_ADDR_MASK))
  }

  predicate Present(pte: nat) {
    BitAnd(pte, PTE_PRESENT) != 0
  }

  predicate Huge(pte: nat) {
    BitAnd(pte, PTE_HUGE) != 0
  }

  // ---- what the macros compute ----

  /** The virtual page number held in the low 48 bits of an address. */
  function PageOf(va: nat): (p: nat)
    ensures p < VIRTUAL_PAGES
  {
    va / PAGE_SIZE % VIRTUAL_PAGES
  }

  /** The bits of a page number above its lowest `level` base-512 digits. */
  function Upper(page: nat, level: nat): nat
  {
    if level == 0 then page else Upper(page, level - 1) / 512
  }

  /** The slot that page `page` uses in a level-`level` table. */
  function Index(page: nat, level: nat): (i: nat)
    requires 1 <= level <= 4
    ensures i < PT_ENTRIES
  {
    Upper(page, level - 1) % 512
  }

  lemma UpperStep(page: nat, level: nat)
    requires 1 <= level <= 4
    ensures Upper(page, level - 1) == 512 * Upper(page, level) + Index(page, level)
  {
  }

  lemma UpperTop(page: nat)
    requires page < VIRTUAL_PAGES
    ensures Upper(page, 4) == 0
  {
    UpperValues(page);
  }

  lemma UpperValues(page: nat)
    ensures Upper(page, 1) == page / 0x200
    ensures Upper(page, 2) == page / 0x4_0000
    ensures Upper(page, 3) == page / 0x800_0000
    ensures Upper(page, 4) == page / 0x10_0000_0000
  {
    assert Upper(page, 0) == page;
    assert Upper(page, 1) == page / 0x200;
    assert Upper(page, 2) == page / 0x200 / 512;
    assert Upper(page, 3) == page / 0x4_0000 / 512;
    assert Upper(page, 4) == page / 0x800_0000 / 512;
  }

  lemma IndexMask(x: nat)
    ensures BitAnd(x, 0x1FF) == x % 512
  {
    assert Pow2(3) == 8;
    Pow2Product(3, 3, 6, 8, 8);
    Pow2Product(6, 3, 9, 64, 8);
    AndLowMask(x, 9);
  }

  lemma ShiftBy(x: nat, k: nat, p: nat)
    requires Pow2(k) == p
    ensures ShiftRight(x, k) == x / p
  {
    ShiftRightDivides(x, k);
  }

  /** The four index macros are the four digits of the page number in base 512. */
  lemma IndexMacros(va: nat)
    ensures Pml4Index(va) == Index(PageOf(va), 4)
    ensures PdptIndex(va) == Index(PageOf(va), 3)
    ensures PdIndex(va) == Index(PageOf(va), 2)
    ensures PtIndex(va) == Index(PageOf(va), 1)
    ensures PageOffset(va) == va % PAGE_SIZE
  {
    WordLimitIsPow2();
    assert Pow2(2) == 4;
    Pow2Product(2, 2, 4, 4, 4);
    assert Pow2(5) == 32;
    Pow2Product(4, 5, 9, 16, 32);
    Pow2Product(12, 9, 21, 0x1000, 0x200);
    Pow2Product(21, 9, 30, 0x20_0000, 0x200);
    Pow2Product(30, 9, 39, 0x4000_0000, 0x200);
    ShiftBy(va, 39, 0x80_0000_0000);
    ShiftBy(va, 30, 0x4000_0000);
    ShiftBy(va, 21, 0x20_0000);
    ShiftBy(va, 12, 0x1000);
    IndexMask(va / 0x80_0000_0000);
    IndexMask(va / 0x4000_0000);
    IndexMask(va / 0x20_0000);
    IndexMask(va / 0x1000);
    AndLowMask(va, 12);
    DigitsOfPage(va);
  }

  lemma DigitsOfPage(va: nat)
    ensures va / 0x80_0000_0000 % 512 == Index(PageOf(va), 4)
    ensures va / 0x4000_0000 % 512 == Index(PageOf(va), 3)
    ensures va / 0x20_0000 % 512 == Index(PageOf(va), 2)
    ensures va / 0x1000 % 512 == Index(PageOf(va), 1)
  {
    var n := va / 0x1000;
    assert va / 0x20_0000 == n / 0x200;
    assert va / 0x4000_0000 == n / 0x4_0000;
    assert va / 0x80_0000_0000 == n / 0x800_0000;
    DigitsOfLowPart(n);
  }

  lemma DigitsOfLowPart(n: nat)
    ensures n / 0x800_0000 % 512 == Index(n % VIRTUAL_PAGES, 4)
    ensures n / 0x4_0000 % 512 == Index(n % VIRTUAL_PAGES, 3)
    ensures n / 0x200 % 512 == Index(n % VIRTUAL_PAGES, 2)
    ensures n % 512 == Index(n % VIRTUAL_PAGES, 1)
  {
    UpperValues(n % VIRTUAL_PAGES);
    var h, r := n / VIRTUAL_PAGES, n % VIRTUAL_PAGES;
    DigitOfSum(h, r, 0x200, 0x800_0000);
    DigitOfSum(h, r, 0x4_0000, 0x4_0000);
    DigitOfSum(h, r, 0x800_0000, 0x200);
    DigitOfSum(h, r, 0x10_0000_0000, 1);
  }

  /** Adding a multiple of 512 * d does not change the base-512 digit at d. */
  lemma DigitOfSum(h: nat, r: nat, c: nat, d: nat)
    requires d > 0 && c % 512 == 0
    ensures (h * (c * d) + r) / d % 512 == r / d % 512
  {
    QuotientOfSum(h, r, c, d);
    RemainderOfSum(h, r / d, c);
  }

  lemma QuotientOfSum(h: nat, r: nat, c: nat, d: nat)
    requires d > 0
    ensures (h * (c * d) + r) / d == h * c + r / d
  {
    var q, m := r / d, r % d;
    assert r == q * d + m;
    RegroupProduct(h, c, q, d);
    QuotientIsUnique(h * (c * d) + r, d, h * c + q, m);
  }

  lemma RemainderOfSum(h: nat, q: nat, c: nat)
    requires c % 512 == 0
    ensures (h * c + q) % 512 == q % 512
  {
    var e := c / 512;
    RegroupMultiple(h, e);
    QuotientIsUnique(h * c + q, 512, h * e + q / 512, q % 512);
  }

  lemma RegroupProduct(h: nat, c: nat, q: nat, d: nat)
    ensures (h * c + q) * d == h * (c * d) + q * d
  {
  }

  lemma RegroupMultiple(h: nat, e: nat)
    ensures h * (e * 512) == (h * e) * 512
  {
  }

  /** `virt & 0x1FFFFF`, the offset in a 2 MiB page. */
  lemma HugeOffset(va: nat)
    ensures BitAnd(va, 0x1F_FFFF) == PageOf(va) % 512 * PAGE_SIZE + PageOffset(va)
  {
    IndexMacros(va);
    assert Pow2(2) == 4;
    Pow2Product(2, 2, 4, 4, 4);
    assert Pow2(5) == 32;
    Pow2Product(4, 5, 9, 16, 32);
    WordLimitIsPow2();
    Pow2Product(12, 9, 21, 0x1000, 0x200);
    AndLowMask(va, 21);
    OffsetDigits(va);
  }

  lemma OffsetDigits(va: nat)
    ensures va % 0x20_0000 == PageOf(va) % 512 * PAGE_SIZE + va % PAGE_SIZE
  {
    var n := va / PAGE_SIZE;
    LowDigit(n);
    QuotientIsUnique(va, 0x20_0000, n / 512, n % 512 * PAGE_SIZE + va % PAGE_SIZE);
  }

  lemma LowDigit(n: nat)
    ensures n % VIRTUAL_PAGES % 512 == n % 512
  {
    var h, r := n / VIRTUAL_PAGES, n % VIRTUAL_PAGES;
    assert n == h * 0x800_0000 * 512 + r;
  }

  // ---- packing an entry ----

  lemma Pow2Sizes()
    ensures Pow2(12) == 0x1000 && Pow2(40) == 0x100_0000_0000
  {
    WordLimitIsPow2();
    assert Pow2(4) == 16;
    Pow2Product(4, 4, 8, 16, 16);
    Pow2Product(12, 8, 20, 0x1000, 0x100);
    Pow2Product(20, 20, 40, 0x10_0000, 0x10_0000);
  }

  /** A mask with its low 12 bits clear applies to the page number. */
  lemma PageMask(x: nat, m: nat)
    ensures BitAnd(x, m * PAGE_SIZE) == BitAnd(x / PAGE_SIZE, m) * PAGE_SIZE
  {
    Pow2Sizes();
    ShiftLeftMultiplies(m, 12);
    AndShiftedMask(x, m, 12);
    ShiftBy(x, 12, 0x1000);
    ShiftLeftMultiplies(BitAnd(x / PAGE_SIZE, m), 12);
  }

  /** `PTE_ADDR` keeps bits 12 to 51. */
  lemma PteAddrValue(pte: nat)
    ensures PteAddr(pte) == pte / PAGE_SIZE % 0x100_0000_0000 * PAGE_SIZE
  {
    Pow2Sizes();
    PageMask(pte, 0xFF_FFFF_FFFF);
    AndLowMask(pte / PAGE_SIZE, 40);
  }

  /** The frame that `cr3 & ~0xFFF` addresses. */
  function RootFrame(cr3: nat): nat {
    BitAnd(cr3, BitNot(0xFFF)) / PAGE_SIZE
  }

  lemma RootFrameValue(cr3: nat)
    requires cr3 < WORD_LIMIT
    ensures RootFrame(cr3) == cr3 / PAGE_SIZE
  {
    var m := 0xF_FFFF_FFFF_FFFF;
    WordLimitIsPow2();
    assert BitNot(0xFFF) == m * PAGE_SIZE;
    PageMask(cr3, m);
    FullMask(cr3 / PAGE_SIZE, 52);
  }

  lemma FullMask(x: nat, k: nat)
    requires x < Pow2(k)
    ensures BitAnd(x, Pow2(k) - 1) == x
  {
    AndLowMask(x, k);
    QuotientIsUnique(x, Pow2(k), 0, x);
  }

  lemma PresentIsLowBit(pte: nat)
    ensures Present(pte) <==> pte % 2 == 1
  {
    assert Pow2(1) == 2;
    AndLowMask(pte, 1);
  }

  /** A frame address `PTE_ADDR` can hold. */
  predicate FrameAddress(phys: nat) {
    phys % PAGE_SIZE == 0 && phys < PHYSICAL_LIMIT
  }

  /** Flag words that `paging_map` may be given: present, and clear of the address bits. */
  predicate EntryFlags(flags: nat) {
    Present(flags) && PteAddr(flags) == 0
  }

  /** An entry `phys | flags` gives both parts back. */
  lemma Packing(phys: nat, flags: nat)
    requires FrameAddress(phys) && EntryFlags(flags)
    ensures PteAddr(BitOr(phys, flags)) == phys
    ensures Present(BitOr(phys, flags))
    ensures Huge(BitOr(phys, flags)) <==> Huge(flags)
  {
    AndOverOr(phys, flags, PTE_ADDR_MASK);
    AndOverOr(phys, flags, PTE_PRESENT);
    AndOverOr(phys, flags, PTE_HUGE);
    FrameAddressBits(phys);
  }

  lemma FrameAddressBits(phys: nat)
    requires FrameAddress(phys)
    ensures PteAddr(phys) == phys && BitAnd(phys, PTE_PRESENT) == 0 && BitAnd(phys, PTE_HUGE) == 0
  {
    hide BitAnd;
    Pow2Sizes();
    PteAddrValue(phys);
    ShiftLeftMultiplies(phys / PAGE_SIZE, 12);
    AndOfLowPart(phys / PAGE_SIZE, PTE_PRESENT, 12);
    AndOfLowPart(phys / PAGE_SIZE, PTE_HUGE, 12);
  }

  /** Address and flags together are the whole entry. */
  lemma EntryParts(pte: nat)
    requires pte < WORD_LIMIT
    ensures PteAddr(pte) + PteFlags(pte) == pte
  {
    WordLimitIsPow2();
    AndSplits(pte, PTE_ADDR_MASK, 64);
  }

  /** The flags that `paging_map` gives to intermediate tables. */
  lemma TableFlags()
    ensures BitOr(PTE_PRESENT, PTE_WRITABLE) == 3
    ensures EntryFlags(3) && !Huge(3)
  {
    PresentIsLowBit(3);
    PteAddrValue(3);
    assert BitAnd(3, 128) == 2 * BitAnd(1, 64);
  }
}
