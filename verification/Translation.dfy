/** What the walk of `paging_virt_to_phys` means, in plain arithmetic on addresses and entries as
    the 4-level paging of Intel SDM volume 3A section 4.5 describes it. */
module Translation {
  import opened Wrappers
  import opened Words
  import opened Paging
  import opened PageTables

  /** The address held in bits 12 to 51 of an entry. */
  function Base(e: nat): nat {
    e / 0x1000 % 0x100_0000_0000 * 0x1000
  }

  /** Bit 0: present. */
  predicate Odd(e: nat) {
    e % 2 == 1
  }

  /** Bit 7 of a directory entry: a 2 MiB page. */
  predicate Large(e: nat) {
    e / 0x80 % 2 == 1
  }

  /** The walk from the table in frame `f`, of which `va / span` picks the entry. */
  function WalkFrom(mem: Memory, f: nat, va: nat, level: nat): Option<nat>
    requires 1 <= level <= 4
    decreases level
  {
    var e := Entry(mem, f, va / Span(level) % 512);
    if !Odd(e) then None
    else if level == 1 then Some(Base(e) + va % 0x1000)
    else if level == 2 && Large(e) then Some(Base(e) + va % 0x20_0000)
    else WalkFrom(mem, Base(e) / 0x1000, va, level - 1)
  }

  /** How much one entry of a level-`level` table covers: 4 KiB, 2 MiB, 1 GiB, 512 GiB. */
  function Span(level: nat): (s: nat)
    requires 1 <= level <= 4
    ensures s > 0
  {
    if level == 1 then 0x1000
    else if level == 2 then 0x20_0000
    else if level == 3 then 0x4000_0000
    else 0x80_0000_0000
  }

  lemma SlotOfAddress(va: nat, level: nat)
    requires 1 <= level <= 4
    ensures va / Span(level) % 512 == Index(PageOf(va), level)
  {
    hide Index, PageOf;
    DigitsOfPage(va);
  }

  lemma HugeIsBitSeven(e: nat)
    ensures Huge(e) <==> Large(e)
  {
    assert Pow2(2) == 4;
    Pow2Product(2, 2, 4, 4, 4);
    assert Pow2(3) == 8;
    Pow2Product(4, 3, 7, 16, 8);
    AndPow2TestsBit(e, 7);
    BitIsQuotient(e, 7);
  }

  lemma EntryMeans(e: nat)
    ensures PteAddr(e) == Base(e) && (Present(e) <==> Odd(e)) && (Huge(e) <==> Large(e))
  {
    PteAddrValue(e);
    PresentIsLowBit(e);
    HugeIsBitSeven(e);
  }

  lemma {:induction false} WalkBelow(mem: Memory, root: nat, va: nat, level: nat, f: nat)
    requires 1 <= level <= 4 && TableAt(mem, root, PageOf(va), level) == Some(f)
    requires level == 1 ==> HugeEntry(mem, root, PageOf(va)).None?
    ensures Translate(mem, root, va) == WalkFrom(mem, f, va, level)
    decreases level
  {
    var page := PageOf(va);
    var e := Entry(mem, f, Index(page, level));
    SlotOfAddress(va, level);
    IndexMacros(va);
    EntryMeans(e);
    hide Index, PageOf, PageOffset, PteAddr, Present, Huge, Base, Odd, Large;
    if level == 1 {
      assert LeafEntry(mem, root, page) == e;
    } else if level == 2 && Present(e) && Huge(e) {
      assert HugeEntry(mem, root, page) == Some(e);
      OffsetDigits(va);
    } else if Present(e) {
      if level == 2 {
        NoHugeAbove(mem, root, page, level, f);
      }
      WalkBelow(mem, root, va, level - 1, ChildOf(e));
    } else {
      NoHugeAbove(mem, root, page, level, f);
      NoTableNoMapping(mem, root, page, level - 1);
    }
  }

  lemma NoHugeAbove(mem: Memory, root: nat, page: nat, level: nat, f: nat)
    requires 2 <= level <= 4 && TableAt(mem, root, page, level) == Some(f)
    requires var e := Entry(mem, f, Index(page, level));
             if level == 2 then !(Present(e) && Huge(e)) else !Present(e)
    ensures HugeEntry(mem, root, page).None?
  {
    hide Index, Present, Huge, PteAddr;
    assert level == 4 ==> TableAt(mem, root, page, 3).None?;
  }

  /** The translation that the page-table lemmas speak of is the walk. */
  lemma TranslateIsWalk(mem: Memory, root: nat, va: nat)
    ensures Translate(mem, root, va) == WalkFrom(mem, root, va, 4)
  {
    WalkBelow(mem, root, va, 4, root);
  }

  /** Inside a 2 MiB page an address translates to the base of the page plus its low 21 bits. */
  lemma HugeTranslation(mem: Memory, root: nat, va: nat, e: nat)
    requires HugeEntry(mem, root, PageOf(va)) == Some(e)
    ensures Translate(mem, root, va) == Some(PteAddr(e) + va % 0x20_0000)
  {
    hide PageOf, PteAddr, HugeEntry;
    OffsetDigits(va);
    IndexMacros(va);
    hide PageOffset;
  }

  lemma PrefixOfPage(va: nat)
    ensures PageOf(va) / 512 == va / 0x20_0000 % 0x800_0000
  {
    var n := va / PAGE_SIZE;
    var h, r := n / VIRTUAL_PAGES, n % VIRTUAL_PAGES;
    assert va / 0x20_0000 == n / 512;
    QuotientIsUnique(n, 512, 0x800_0000 * h + r / 512, r % 512);
    QuotientIsUnique(n / 512, 0x800_0000, h, r / 512);
  }

  lemma SamePrefix(va: nat, wb: nat)
    requires va / 0x20_0000 == wb / 0x20_0000
    ensures Upper(PageOf(va), 2) == Upper(PageOf(wb), 2) && Index(PageOf(va), 2) == Index(PageOf(wb), 2)
  {
    PrefixOfPage(va);
    PrefixOfPage(wb);
    hide PageOf;
    UpperValues(PageOf(va));
    UpperValues(PageOf(wb));
  }

  /** Two addresses of the same 2 MiB use the same entry, and their translations are as far apart
      as they are. */
  lemma HugeIsAffine(mem: Memory, root: nat, va: nat, wb: nat)
    requires va / 0x20_0000 == wb / 0x20_0000 && HugeEntry(mem, root, PageOf(va)).Some?
    ensures HugeEntry(mem, root, PageOf(wb)) == HugeEntry(mem, root, PageOf(va))
    ensures Translate(mem, root, va).Some? && Translate(mem, root, wb).Some?
    ensures Translate(mem, root, wb).value - Translate(mem, root, va).value == wb - va
  {
    SamePrefix(va, wb);
    PathByPrefix(mem, root, PageOf(va), PageOf(wb), 2);
    var e := HugeEntry(mem, root, PageOf(va)).value;
    HugeTranslation(mem, root, va, e);
    HugeTranslation(mem, root, wb, e);
  }

  // ---- the tables of the boot code ----

  /** The four tables that boot.asm fills: both upper halves lead to one page directory, whose 512
      entries are 2 MiB pages from physical address 0 on; the 512 entries written behind it belong
      to a frame that nothing links. */
  ghost predicate BootTables(mem: Memory, root: nat, low: nat, high: nat, pd: nat) {
    && low < 0x10_0000 && high < 0x10_0000 && pd < 0x10_0000
    && Entry(mem, root, 0) == low * 0x1000 + 3 && Entry(mem, root, 511) == high * 0x1000 + 3
    && Entry(mem, low, 0) == pd * 0x1000 + 3 && (forall i :: 1 <= i < 512 ==> Entry(mem, low, i) == 0)
    && Entry(mem, high, 510) == pd * 0x1000 + 3 && Entry(mem, high, 511) == 0
    && forall i :: 0 <= i < 512 ==> Entry(mem, pd, i) == i * 0x20_0000 + 0x83
  }

  /** The boot code maps the first GiB onto itself and, from 0xFFFFFFFF80000000 on, once more; the
      second GiB of either half, which its comments promise as well, is not mapped. */
  lemma BootMapsOneGiB(mem: Memory, root: nat, low: nat, high: nat, pd: nat, va: nat)
    requires BootTables(mem, root, low, high, pd) && va < 0x8000_0000
    ensures Translate(mem, root, va) == if va < 0x4000_0000 then Some(va) else None
    ensures Translate(mem, root, 0xFFFF_FFFF_8000_0000 + va) == if va < 0x4000_0000 then Some(va) else None
  {
    SlotsOfHalf(va, 0, 0);
    SlotsOfHalf(0xFFFF_FFFF_8000_0000 + va, 511, 510);
    hide Translate, WalkFrom, Span, Base;
    BootHalf(mem, root, low, pd, va, va, 0, 0);
    BootHalf(mem, root, high, pd, 0xFFFF_FFFF_8000_0000 + va, va, 511, 510);
  }

  lemma SlotsOfHalf(va: nat, i: nat, j: nat)
    requires (i, j) == (0, 0) || (i, j) == (511, 510)
    requires var start := if i == 0 then 0 else 0xFFFF_FFFF_8000_0000; start <= va < start + 0x8000_0000
    ensures va / Span(4) % 512 == i
    ensures var x := va - if i == 0 then 0 else 0xFFFF_FFFF_8000_0000;
            va / Span(3) % 512 == j + x / 0x4000_0000 && va % 0x4000_0000 == x % 0x4000_0000
  {
  }

  /** One half: slot `i` of the root leads to the table `f`, whose slot `j` leads to the page
      directory and whose next slot is empty. */
  lemma BootHalf(mem: Memory, root: nat, f: nat, pd: nat, va: nat, x: nat, i: nat, j: nat)
    requires f < 0x10_0000 && pd < 0x10_0000 && i < 512 && j < 511 && x < 0x8000_0000
    requires Entry(mem, root, i) == f * 0x1000 + 3 && Entry(mem, f, j) == pd * 0x1000 + 3 && Entry(mem, f, j + 1) == 0
    requires forall k :: 0 <= k < 512 ==> Entry(mem, pd, k) == k * 0x20_0000 + 0x83
    requires va / Span(4) % 512 == i && va / Span(3) % 512 == j + x / 0x4000_0000
    requires va % 0x4000_0000 == x % 0x4000_0000
    ensures Translate(mem, root, va) == if x < 0x4000_0000 then Some(x) else None
  {
    TranslateIsWalk(mem, root, va);
    LinkParts(f);
    LinkParts(pd);
    StepDown(mem, root, va, 4);
    StepDown(mem, f, va, 3);
    hide Translate, WalkFrom, Span, Base, Odd, Large, Entry;
    if x < 0x4000_0000 {
      BootPage(mem, pd, va, x);
    } else {
      assert x / 0x4000_0000 == 1;
      ZeroIsEven();
    }
  }

  lemma ZeroIsEven()
    ensures !Odd(0)
  {
  }

  lemma StepDown(mem: Memory, f: nat, va: nat, level: nat)
    requires 3 <= level <= 4
    ensures var e := Entry(mem, f, va / Span(level) % 512);
            WalkFrom(mem, f, va, level) == if Odd(e) then WalkFrom(mem, Base(e) / 0x1000, va, level - 1) else None
  {
  }

  lemma LinkParts(f: nat)
    requires f < 0x10_0000
    ensures Odd(f * 0x1000 + 3) && Base(f * 0x1000 + 3) / 0x1000 == f
  {
    QuotientIsUnique(f * 0x1000 + 3, 0x1000, f, 3);
    QuotientIsUnique(f, 0x100_0000_0000, 0, f);
    QuotientIsUnique(f * 0x1000, 0x1000, f, 0);
    QuotientIsUnique(f * 0x1000 + 3, 2, f * 0x800 + 1, 1);
  }

  lemma PageEntryParts(i: nat)
    requires i < 512
    ensures var e := i * 0x20_0000 + 0x83; Odd(e) && Large(e) && Base(e) == i * 0x20_0000
  {
    var e := i * 0x20_0000 + 0x83;
    QuotientIsUnique(e, 2, i * 0x10_0000 + 0x41, 1);
    QuotientIsUnique(e, 0x80, i * 0x4000 + 1, 3);
    QuotientIsUnique(i * 0x4000 + 1, 2, i * 0x2000, 1);
    QuotientIsUnique(e, 0x1000, i * 0x200, 0x83);
    QuotientIsUnique(i * 0x200, 0x100_0000_0000, 0, i * 0x200);
  }

  /** The 2 MiB page of the boot directory that `va` falls into, `x` bytes into its GiB. */
  lemma BootPage(mem: Memory, pd: nat, va: nat, x: nat)
    requires forall i :: 0 <= i < 512 ==> Entry(mem, pd, i) == i * 0x20_0000 + 0x83
    requires x < 0x4000_0000 && va % 0x4000_0000 == x
    ensures WalkFrom(mem, pd, va, 2) == Some(x)
  {
    var i, h := x / 0x20_0000, va / 0x4000_0000;
    QuotientIsUnique(va, 0x20_0000, h * 512 + i, x % 0x20_0000);
    QuotientIsUnique(h * 512 + i, 512, h, i);
    PageEntryParts(i);
    assert Entry(mem, pd, i) == i * 0x20_0000 + 0x83;
    assert Span(2) == 0x20_0000;
    hide Base, Odd, Large, Entry;
  }
}
