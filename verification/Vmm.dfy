/** kernel/mm/vmm.c: the page-table code working in place on physical memory. */
module Vmm {
  import opened Wrappers
  import opened Words
  import opened FrameBits
  import opened Pmm
  import opened Paging
  import opened PageTables
  import opened Ranges
  import opened Translation

  const KERNEL_TABLE_FLAGS: nat := BitOr(PTE_PRESENT, PTE_WRITABLE)
  const VIRTUAL_LIMIT: nat := 0x1_0000_0000_0000

  /** A new link made by `paging_map` is the address of the new table with the present and the
      writable bit and no other. */
  lemma NewLinkIsWritable(e: nat, t0: Tables, t1: Tables)
    requires IsNewLink(e, t0, t1, KERNEL_TABLE_FLAGS)
    ensures e == ChildOf(e) * 0x1000 + 3
  {
    assert KERNEL_TABLE_FLAGS == 3;
    assert Pow2(2) == 4;
    Pow2Product(2, 2, 4, 4, 4);
    assert Pow2(4) == 16;
    Pow2Product(4, 4, 8, 16, 16);
    Pow2Product(8, 4, 12, 256, 16);
    ShiftLeftMultiplies(ChildOf(e), 12);
    OrOfLowPart(ChildOf(e), 3, 12);
  }

  /** `n` pages from `first` on map to consecutive frames from `phys` on; every other page
      translates as before. */
  ghost predicate RangeMapped(m0: Memory, m1: Memory, root: nat, first: nat, n: nat, phys: nat)
    requires first < VIRTUAL_PAGES
  {
    forall q: nat :: q < VIRTUAL_PAGES ==>
      Mapping(m1, root, q) ==
      if Distance(first, q) < n then Some(phys + Distance(first, q) * PAGE_SIZE) else Mapping(m0, root, q)
  }

  /** `n` pages from `first` on have no translation; every other page translates as before. */
  ghost predicate RangeUnmapped(m0: Memory, m1: Memory, root: nat, first: nat, n: nat)
    requires first < VIRTUAL_PAGES
  {
    forall q: nat :: q < VIRTUAL_PAGES ==>
      Mapping(m1, root, q) == if Distance(first, q) < n then None else Mapping(m0, root, q)
  }

  /** The entries of `n` pages from `first` on hold consecutive frames with the given flags;
      every other entry is as before. */
  ghost predicate RangeEntries(m0: Memory, m1: Memory, root: nat, first: nat, n: nat, phys: nat, flags: nat)
    requires first < VIRTUAL_PAGES
  {
    forall q: nat :: q < VIRTUAL_PAGES ==>
      LeafEntry(m1, root, q) ==
      if Distance(first, q) < n then BitOr(phys + Distance(first, q) * PAGE_SIZE, flags) else LeafEntry(m0, root, q)
  }

  /** The entries of `n` pages from `first` on are 0; every other entry is as before. */
  ghost predicate RangeCleared(m0: Memory, m1: Memory, root: nat, first: nat, n: nat)
    requires first < VIRTUAL_PAGES
  {
    forall q: nat :: q < VIRTUAL_PAGES ==>
      LeafEntry(m1, root, q) == if Distance(first, q) < n then 0 else LeafEntry(m0, root, q)
  }

  /** No 2 MiB entry covers the range. */
  ghost predicate NoHugeIn(mem: Memory, root: nat, first: nat, n: nat)
    requires first < VIRTUAL_PAGES
  {
    forall q: nat :: q < VIRTUAL_PAGES && Distance(first, q) < n ==> HugeEntry(mem, root, q).None?
  }

  ghost predicate SameHuge(m0: Memory, m1: Memory, root: nat) {
    forall q: nat :: q < VIRTUAL_PAGES ==> HugeEntry(m1, root, q) == HugeEntry(m0, root, q)
  }

  ghost predicate SameMappings(m0: Memory, m1: Memory, root: nat) {
    forall q: nat :: q < VIRTUAL_PAGES ==> Mapping(m1, root, q) == Mapping(m0, root, q)
  }

  /** Used pages stay used, and every new table was a free page before. */
  ghost predicate Grew(u0: seq<bool>, t0: Tables, u1: seq<bool>, t1: Tables) {
    && |u0| == |u1| == MAX_PAGES
    && (forall f :: 0 <= f < MAX_PAGES && u0[f] ==> u1[f])
    && (forall f :: f in t0 ==> f in t1)
    && (forall f :: f in t1 && f !in t0 ==> f < MAX_PAGES && !u0[f])
  }

  lemma NthPage(virt: nat, k: nat)
    requires k < VIRTUAL_PAGES
    ensures Distance(PageOf(virt), PageOf((virt + k * PAGE_SIZE) % WORD_LIMIT)) == k
  {
    var v := virt + k * PAGE_SIZE;
    assert v / PAGE_SIZE == virt / PAGE_SIZE + k;
    LowBitsSurvive(v);
    SumModulo(virt / PAGE_SIZE, k);
  }

  lemma LowBitsSurvive(v: nat)
    ensures PageOf(v % WORD_LIMIT) == PageOf(v)
  {
    var h := v / WORD_LIMIT;
    assert v == h * WORD_LIMIT + v % WORD_LIMIT;
    assert v / PAGE_SIZE == h * 0x10_0000_0000_0000 + v % WORD_LIMIT / PAGE_SIZE;
  }

  lemma SumModulo(a: nat, k: nat)
    requires k < VIRTUAL_PAGES
    ensures Distance(a % VIRTUAL_PAGES, (a + k) % VIRTUAL_PAGES) == k
  {
    var r := a % VIRTUAL_PAGES;
    assert (a + k) % VIRTUAL_PAGES == if r + k < VIRTUAL_PAGES then r + k else r + k - VIRTUAL_PAGES;
  }

  lemma EmptyRange(mem: Memory, root: nat, first: nat, phys: nat, flags: nat)
    requires first < VIRTUAL_PAGES
    ensures RangeMapped(mem, mem, root, first, 0, phys) && RangeEntries(mem, mem, root, first, 0, phys, flags)
    ensures RangeMissing(mem, root, first, 0) == 0
  {
    hide Mapping, LeafEntry;
  }

  lemma RangeMappedStep(m0: Memory, m1: Memory, m2: Memory, root: nat, first: nat, k: nat, phys: nat, page: nat)
    requires first < VIRTUAL_PAGES && page < VIRTUAL_PAGES && Distance(first, page) == k
    requires RangeMapped(m0, m1, root, first, k, phys)
    requires Mapping(m2, root, page) == Some(phys + k * PAGE_SIZE)
    requires forall q: nat :: q < VIRTUAL_PAGES && q != page ==> Mapping(m2, root, q) == Mapping(m1, root, q)
    ensures RangeMapped(m0, m2, root, first, k + 1, phys)
  {
    hide Mapping;
  }

  lemma RangeEntriesStep(m0: Memory, m1: Memory, m2: Memory, root: nat, first: nat, k: nat, phys: nat, flags: nat, page: nat)
    requires first < VIRTUAL_PAGES && page < VIRTUAL_PAGES && Distance(first, page) == k
    requires RangeEntries(m0, m1, root, first, k, phys, flags)
    requires LeafSet(m1, m2, root, page, BitOr(phys + k * PAGE_SIZE, flags))
    ensures RangeEntries(m0, m2, root, first, k + 1, phys, flags)
  {
    hide LeafEntry, BitOr;
  }

  lemma RangeClearedStep(m0: Memory, m1: Memory, m2: Memory, root: nat, first: nat, k: nat, page: nat)
    requires first < VIRTUAL_PAGES && page < VIRTUAL_PAGES && Distance(first, page) == k
    requires RangeCleared(m0, m1, root, first, k) && LeafSet(m1, m2, root, page, 0)
    ensures RangeCleared(m0, m2, root, first, k + 1)
  {
    hide LeafEntry;
  }

  lemma RangeUnmappedStep(m0: Memory, m1: Memory, m2: Memory, root: nat, first: nat, k: nat, page: nat)
    requires first < VIRTUAL_PAGES && page < VIRTUAL_PAGES && Distance(first, page) == k
    requires RangeUnmapped(m0, m1, root, first, k)
    requires Mapping(m2, root, page).None?
    requires forall q: nat :: q < VIRTUAL_PAGES && q != page ==> Mapping(m2, root, q) == Mapping(m1, root, q)
    ensures RangeUnmapped(m0, m2, root, first, k + 1)
  {
    hide Mapping;
  }

  /** Unmapping a range right after mapping it, where nothing was mapped before, restores the
      translation of every address. */
  lemma UnmapUndoesMap(m0: Memory, m1: Memory, m2: Memory, root: nat, first: nat, n: nat, phys: nat)
    requires first < VIRTUAL_PAGES
    requires RangeMapped(m0, m1, root, first, n, phys) && RangeUnmapped(m1, m2, root, first, n)
    requires forall q: nat :: q < VIRTUAL_PAGES && Distance(first, q) < n ==> Mapping(m0, root, q).None?
    ensures forall va: nat :: Translate(m2, root, va) == Translate(m0, root, va)
  {
    hide Mapping;
    forall va: nat
      ensures Translate(m2, root, va) == Translate(m0, root, va)
    {
      assert Mapping(m2, root, PageOf(va)) == Mapping(m0, root, PageOf(va));
    }
  }

  /** Byte addresses: a mapped range translates by adding one constant. */
  lemma RangeIsAffine(m0: Memory, m1: Memory, root: nat, virt: nat, n: nat, phys: nat, d: nat)
    requires RangeMapped(m0, m1, root, PageOf(virt), n, phys)
    requires virt % PAGE_SIZE == 0 && d < n * PAGE_SIZE && n <= VIRTUAL_PAGES
    ensures Translate(m1, root, (virt + d) % WORD_LIMIT) == Some(phys + d)
  {
    hide Mapping, BitAnd, PageOf, Distance;
    var k := d / PAGE_SIZE;
    var va := (virt + d) % WORD_LIMIT;
    OffsetInRange(virt, n, d);
    NthPage(virt, k);
    SamePageAsItsStart(virt, d);
    IndexMacros(va);
    assert Mapping(m1, root, PageOf(va)) == Some(phys + k * PAGE_SIZE);
  }

  lemma OffsetInRange(virt: nat, n: nat, d: nat)
    requires virt % PAGE_SIZE == 0 && d < n * PAGE_SIZE
    ensures d / PAGE_SIZE < n && d == d / PAGE_SIZE * PAGE_SIZE + d % PAGE_SIZE
    ensures (virt + d) % WORD_LIMIT % PAGE_SIZE == d % PAGE_SIZE
  {
    RemainderOfRemainder(virt + d);
    var v, k, o := virt / PAGE_SIZE, d / PAGE_SIZE, d % PAGE_SIZE;
    assert virt == v * PAGE_SIZE && d == k * PAGE_SIZE + o;
    QuotientIsUnique(virt + d, PAGE_SIZE, v + k, o);
  }

  lemma SamePageAsItsStart(virt: nat, d: nat)
    requires virt % PAGE_SIZE == 0
    ensures PageOf((virt + d) % WORD_LIMIT) == PageOf((virt + d / PAGE_SIZE * PAGE_SIZE) % WORD_LIMIT)
  {
    hide PageOf;
    var v, k, o := virt / PAGE_SIZE, d / PAGE_SIZE, d % PAGE_SIZE;
    assert virt == v * PAGE_SIZE && d == k * PAGE_SIZE + o;
    var start := (v + k) * PAGE_SIZE;
    assert virt + d == start + o && virt + k * PAGE_SIZE == start;
    LowBitsSurvive(start);
    LowBitsSurvive(start + o);
    OffsetIgnored(v + k, o);
  }

  lemma OffsetIgnored(n: nat, o: nat)
    requires o < PAGE_SIZE
    ensures PageOf(n * PAGE_SIZE + o) == PageOf(n * PAGE_SIZE)
  {
  }

  lemma RemainderOfRemainder(x: nat)
    ensures x % WORD_LIMIT % PAGE_SIZE == x % PAGE_SIZE
  {
    var h := x / WORD_LIMIT;
    assert x == h * 0x10_0000_0000_0000 * PAGE_SIZE + x % WORD_LIMIT;
  }

  // ---- the heap of an address space ----

  ghost predicate HeapBacked(mem: Memory, root: nat, tables: Tables, used: seq<bool>, a: nat, b: nat)
    requires |used| == MAX_PAGES
  {
    && (forall k: nat {:trigger Mapping(mem, root, k)} :: a <= k < b ==>
          var m := Mapping(mem, root, k);
          && m.Some? && m.value % PAGE_SIZE == 0
          && m.value / PAGE_SIZE < MAX_PAGES
          && used[m.value / PAGE_SIZE] && m.value / PAGE_SIZE !in tables)
    && (forall j: nat, k: nat {:trigger Mapping(mem, root, j), Mapping(mem, root, k)} ::
          a <= j < k < b ==> Mapping(mem, root, j) != Mapping(mem, root, k))
  }

  function Sum(counts: seq<nat>): nat {
    if counts == [] then 0 else counts[0] + Sum(counts[1..])
  }

  lemma SumSplits(counts: seq<nat>, i: nat)
    requires i < |counts|
    ensures Sum(counts[i..]) == counts[i] + Sum(counts[i + 1..])
    ensures Sum(counts[..i + 1]) == Sum(counts[..i]) + counts[i]
  {
    assert counts[i..][1..] == counts[i + 1..];
    SumExtends(counts[..i], counts[i]);
    assert counts[..i + 1] == counts[..i] + [counts[i]];
  }

  lemma {:induction false} SumExtends(counts: seq<nat>, c: nat)
    ensures Sum(counts + [c]) == Sum(counts) + c
    decreases |counts|
  {
    if counts == [] {
      assert [] + [c] == [c] && [c][1..] == [];
    } else {
      assert (counts + [c])[1..] == counts[1..] + [c];
      SumExtends(counts[1..], c);
    }
  }

  lemma SumStarts(counts: seq<nat>)
    ensures counts[0..] == counts && Sum(counts[..0]) == 0
  {
  }

  lemma SumEnds(counts: seq<nat>)
    ensures counts[..|counts|] == counts && Sum(counts[|counts|..]) == 0
  {
  }

  lemma PagesAreMany(count: nat)
    requires count * PAGE_SIZE < VIRTUAL_LIMIT
    ensures count < VIRTUAL_PAGES
  {
  }

  lemma NothingMissing(mem: Memory, root: nat, first: nat)
    requires first < VIRTUAL_PAGES
    ensures RangeMissing(mem, root, first, 0) == 0
  {
  }

  /** One more stretch at the end of a range: tables and missing tables add up. */
  lemma InParts(m0: Memory, m1: Memory, m2: Memory, root: nat, start: nat, a: nat, b: nat, rest: nat)
    requires start % PAGE_SIZE == 0 && start + (a + b + rest) * PAGE_SIZE < VIRTUAL_LIMIT
    requires RangeGrown(m0, m1, root, PageOf(start), a)
    requires RangeGrown(m1, m2, root, PageOf(start + a * PAGE_SIZE), b)
    ensures RangeGrown(m0, m2, root, PageOf(start), a + b) && a + b < VIRTUAL_PAGES
    ensures RangeMissing(m0, root, PageOf(start), a + b) ==
            RangeMissing(m0, root, PageOf(start), a) + RangeMissing(m1, root, PageOf(start + a * PAGE_SIZE), b)
  {
    hide RangeGrown, RangeMissing;
    PartsFit(start, a, b, rest);
    hide PageOf;
    GrownInParts(m0, m1, m2, root, PageOf(start), a, b);
    MissingInParts(m0, m1, root, PageOf(start), a, b);
  }

  lemma PartsFit(start: nat, a: nat, b: nat, rest: nat)
    requires start % PAGE_SIZE == 0 && start + (a + b + rest) * PAGE_SIZE < VIRTUAL_LIMIT
    ensures PageOf(start) + a + b < VIRTUAL_PAGES && PageOf(start + a * PAGE_SIZE) == PageOf(start) + a
  {
    HeapEndPages(start, a + b);
    HeapEndPages(start, a);
    HeapEndPages(start + a * PAGE_SIZE, b);
    hide PageOf;
  }

  lemma MineIsOther(m0: Memory, used: seq<bool>, theirs: Tables, m1: Memory, mine: Tables)
    requires |m0| == |used| == MAX_PAGES && OthersKept(m0, used, theirs, m1)
    requires forall f :: f in mine ==> f < MAX_PAGES && used[f] && f !in theirs
    ensures forall f :: f in mine ==> m1[f] == m0[f]
  {
  }

  lemma TreeIsSized(mem: Memory, root: nat, tables: Tables)
    requires Tree(mem, root, tables)
    ensures WellSized(mem) && |mem| == MAX_PAGES && forall f :: f in tables ==> f < MAX_PAGES
  {
  }

  lemma OthersSame(mem: Memory, used: seq<bool>, tables: Tables)
    ensures OthersKept(mem, used, tables, mem)
  {
  }

  /** What is kept with a run taken is kept without it. */
  lemma OthersKeptByLess(m0: Memory, free: seq<bool>, taken: seq<bool>, run: nat, count: nat, tables: Tables, m1: Memory)
    requires |free| == |taken| && taken == Filled(free, run, run + count, true) && OthersKept(m0, taken, tables, m1)
    ensures OthersKept(m0, free, tables, m1)
  {
  }

  lemma RunIsRun(used: seq<bool>, s: nat, n: nat)
    requires IsRun(used, s, n)
    ensures HasRun(used, n)
  {
  }

  lemma NoHugePrefix(mem: Memory, root: nat, first: nat, n: nat, rest: nat)
    requires first < VIRTUAL_PAGES && NoHugeIn(mem, root, first, n + rest)
    ensures NoHugeIn(mem, root, first, n)
  {
    hide HugeEntry;
  }

  /** Behind the first `n` pages of a range without huge pages there are none either. */
  lemma NoHugeBehind(m0: Memory, m1: Memory, root: nat, virt: nat, n: nat, rest: nat)
    requires virt % PAGE_SIZE == 0 && virt + (n + rest) * PAGE_SIZE < VIRTUAL_LIMIT
    requires NoHugeIn(m0, root, PageOf(virt), n + rest) && SameHuge(m0, m1, root)
    ensures NoHugeIn(m1, root, PageOf(virt + n * PAGE_SIZE), rest)
  {
    hide HugeEntry;
    HeapEndPages(virt, n);
    HeapEndPages(virt + n * PAGE_SIZE, rest);
    var first := PageOf(virt);
    assert PageOf(virt + n * PAGE_SIZE) == first + n;
    hide PageOf;
    forall q: nat | q < VIRTUAL_PAGES && Distance(first + n, q) < rest
      ensures HugeEntry(m1, root, q).None?
    {
      assert Distance(first, q) < n + rest;
    }
  }

  lemma HeapEndPages(heapEnd: nat, count: nat)
    requires heapEnd % PAGE_SIZE == 0 && heapEnd + count * PAGE_SIZE < VIRTUAL_LIMIT
    ensures PageOf(heapEnd) == heapEnd / PAGE_SIZE
    ensures (heapEnd + count * PAGE_SIZE) / PAGE_SIZE == heapEnd / PAGE_SIZE + count
    ensures (heapEnd + count * PAGE_SIZE) % PAGE_SIZE == 0
    ensures AlignUp(count * PAGE_SIZE, PAGE_SIZE) == count * PAGE_SIZE
    ensures count * PAGE_SIZE / PAGE_SIZE == count
  {
  }

  lemma RunFits(used: seq<bool>, s: nat, n: nat)
    requires |used| == MAX_PAGES && (n > 0 ==> IsRun(used, s, n)) && (n == 0 ==> s == 0)
    ensures IsRun(used, s, n) && s + n <= MAX_PAGES
  {
  }

  /** Mapping a run of free frames at the end of the heap keeps it backed one to one: the
      frames were free, so they are neither heap frames nor tables, and the tables created
      on the way were free after the run was taken. */
  lemma HeapGrows(m0: Memory, t0: Tables, u0: seq<bool>, taken: seq<bool>, m1: Memory, t1: Tables, u1: seq<bool>,
                  root: nat, a: nat, b: nat, n: nat, s: nat)
    requires |u0| == |u1| == MAX_PAGES && a <= b && b + n < VIRTUAL_PAGES
    requires HeapBacked(m0, root, t0, u0, a, b)
    requires forall f :: f in t0 ==> f < MAX_PAGES && u0[f]
    requires IsRun(u0, s, n) && taken == Filled(u0, s, s + n, true)
    requires Grew(taken, t0, u1, t1)
    requires RangeMapped(m0, m1, root, b, n, s * PAGE_SIZE)
    ensures HeapBacked(m1, root, t1, u1, a, b + n)
  {
    hide Mapping;
    forall k: nat | a <= k < b + n
      ensures Mapping(m1, root, k) ==
              if k < b then Mapping(m0, root, k) else Some((s + (k - b)) * PAGE_SIZE)
      ensures k >= b ==> !u0[s + (k - b)] && u1[s + (k - b)] && s + (k - b) !in t1
      ensures k < b ==> var f := Mapping(m0, root, k).value / PAGE_SIZE; u1[f] && f !in t1
    {
      assert Distance(b, k) == if b <= k then k - b else k + VIRTUAL_PAGES - b;
      if k < b {
        var f := Mapping(m0, root, k).value / PAGE_SIZE;
        assert taken[f];
      } else {
        assert taken[s + (k - b)];
      }
    }
  }

  /** All that creating one missing table on the path to `page` does. */
  lemma AttachOnPath(mem: Memory, root: nat, tables: Tables, f: nat, i: nat, x: nat, e: nat, page: nat)
    requires Tree(mem, root, tables) && CanAttach(mem, tables, f, i, x, e)
    requires TableAt(mem, root, page, tables[f].level) == Some(f) && Index(page, tables[f].level) == i
    ensures var after := WithTable(mem, f, i, x, e);
            && Tree(after, root, Grown(tables, f, i, x))
            && SameMappings(mem, after, root) && SameHuge(mem, after, root) && SameLeaves(mem, after, root)
            && TableAt(mem, root, page, tables[f].level - 1).None?
            && TableAt(after, root, page, tables[f].level - 1) == Some(x)
            && MissingTables(after, root, page) == MissingTables(mem, root, page) - 1
  {
    AttachKeepsTree(mem, root, tables, f, i, x, e);
    AttachKeepsMappings(mem, root, tables, f, i, x, e);
    PathOnLevels(mem, root, tables, page);
    AttachExtendsPath(mem, root, tables, f, i, x, e, page);
    AttachFillsGap(mem, root, tables, f, i, x, e, page);
  }

  /** All that creating tables does: pages in use stay in use and new tables were free, links
      to new tables have the given flags, and frames outside the tree are untouched. */
  ghost predicate Extends(m0: Memory, u0: seq<bool>, t0: Tables, m1: Memory, u1: seq<bool>, t1: Tables, flags: nat) {
    Grew(u0, t0, u1, t1) && OnlyNewLinks(m0, t0, m1, t1, flags) && OthersKept(m0, u0, t0, m1)
  }

  lemma ExtendsNothing(mem: Memory, used: seq<bool>, tables: Tables, flags: nat)
    requires |used| == MAX_PAGES
    ensures Extends(mem, used, tables, mem, used, tables, flags)
  {
  }

  lemma ExtendsTwice(m0: Memory, u0: seq<bool>, t0: Tables, m1: Memory, u1: seq<bool>, t1: Tables,
                     m2: Memory, u2: seq<bool>, t2: Tables, flags: nat)
    requires Extends(m0, u0, t0, m1, u1, t1, flags) && Extends(m1, u1, t1, m2, u2, t2, flags)
    ensures Extends(m0, u0, t0, m2, u2, t2, flags)
  {
    NewLinksTwice(m0, t0, m1, t1, m2, t2, flags);
    hide OnlyNewLinks;
  }

  lemma ExtendsByTable(mem: Memory, used: seq<bool>, tables: Tables, f: nat, i: nat, x: nat, e: nat, flags: nat)
    requires CanAttach(mem, tables, f, i, x, e) && e == BitOr(x * PAGE_SIZE, flags)
    requires |used| == MAX_PAGES && !used[x]
    ensures Extends(mem, used, tables, WithTable(mem, f, i, x, e), used[x := true], Grown(tables, f, i, x), flags)
  {
    AttachAddsOneLink(mem, tables, f, i, x, e, flags);
    hide OnlyNewLinks, Links, BitOr;
  }

  lemma ExtendsByLeaf(mem: Memory, used: seq<bool>, tables: Tables, t: nat, i: nat, e: nat, flags: nat)
    requires WellSized(mem) && t in tables && t < MAX_PAGES && tables[t].level == 1 && i < PT_ENTRIES
    requires |used| == MAX_PAGES
    ensures Extends(mem, used, tables, Store(mem, t, i, e), used, tables, flags)
  {
    LeafStoreAddsNoLink(mem, tables, t, i, e, flags);
    hide OnlyNewLinks;
  }

  /** An address space record. */
  class AddressSpace {
    var pml4Phys: nat
    var heapStart: nat
    var heapEnd: nat
    var stackTop: nat

    constructor (pml4Phys: nat)
      ensures this.pml4Phys == pml4Phys
      ensures heapStart == heapEnd == 0x40_0000 && stackTop == 0x7FFF_FFFF_E000
    {
      this.pml4Phys := pml4Phys;
      heapStart, heapEnd, stackTop := 0x40_0000, 0x40_0000, 0x7FFF_FFFF_E000;
    }
  }

  class Mmu {
    const frames: array<seq<nat>>
    const pmm: PhysicalMemory
    var cr3: nat
    ghost var tables: Tables

    function Root(): nat
      reads this`cr3
    {
      RootFrame(cr3)
    }

    ghost function Mem(): Memory
      reads frames
    {
      frames[..]
    }

    /** CR3 holds the root of an ownership tree whose frames are all marked used. */
    ghost predicate Valid()
      reads this, frames, pmm, pmm.bitmap
    {
      && pmm.Valid()
      && cr3 < WORD_LIMIT
      && Tree(Mem(), Root(), tables)
      && (forall f :: f in tables ==> pmm.used[f])
    }

    /** A machine whose active root is the used page `root`, with memory all zero. */
    constructor (pmm: PhysicalMemory, root: nat)
      requires pmm.Valid() && root < MAX_PAGES && pmm.used[root]
      ensures Valid() && fresh(frames) && this.pmm == pmm
      ensures Root() == root && tables == EmptyRoot(root)
      ensures forall page :: Mapping(Mem(), Root(), page).None? && HugeEntry(Mem(), Root(), page).None?
    {
      this.pmm := pmm;
      frames := new seq<nat>[MAX_PAGES](_ => EmptyFrame());
      cr3 := root * PAGE_SIZE;
      tables := EmptyRoot(root);
      new;
      hide Owns, Hangs, Mapping, HugeEntry, PhysicalMemory.Mirrored;
      RootFrameValue(cr3);
      assert frames[..][root] == EmptyFrame();
      EmptyRootIsTree(Mem(), root);
    }

    // ---- one level of the walk ----

    /** The `memset` of the new table and the store that links it. */
    method LinkEmptyTable(parent: nat, idx: nat, x: nat, e: nat)
      requires WellSized(Mem()) && parent < MAX_PAGES && idx < PT_ENTRIES && x < MAX_PAGES && x != parent
      modifies frames
      ensures Mem() == WithTable(old(Mem()), parent, idx, x, e)
    {
      frames[x] := EmptyFrame();
      frames[parent] := frames[parent][idx := e];
    }

    /** `get_or_create_table` on the path to `page`: the child table, created empty when it
        was missing.  No translation changes, and each created table costs one free page. */
    method GetOrCreateTable(parent: nat, idx: nat, flags: nat, ghost page: nat, ghost level: nat)
      returns (r: Outcome<nat>)
      requires Valid() && 2 <= level <= 4
      requires EntryFlags(flags) && !Huge(flags)
      requires TableAt(Mem(), Root(), page, level) == Some(parent) && idx == Index(page, level)
      requires page < VIRTUAL_PAGES && HugeEntry(Mem(), Root(), page).None?
      modifies this`tables, frames, pmm, pmm.bitmap
      ensures Valid() && pmm.Drift() == old(pmm.Drift())
      ensures r.Panicked? <==> FreeCount(old(pmm.used)) == 0 && TableAt(old(Mem()), Root(), page, level - 1).None?
      ensures r.Panicked? ==> FreeCount(pmm.used) == 0 && Mem() == old(Mem())
      ensures r.Returned? ==> TableAt(Mem(), Root(), page, level - 1) == Some(r.value)
      ensures r.Returned? ==>
                FreeCount(pmm.used) - MissingTables(Mem(), Root(), page) ==
                FreeCount(old(pmm.used)) - MissingTables(old(Mem()), Root(), page)
      ensures SameMappings(old(Mem()), Mem(), Root()) && SameHuge(old(Mem()), Mem(), Root())
      ensures SameLeaves(old(Mem()), Mem(), Root())
      ensures r.Returned? ==> TableGrown(old(Mem()), Mem(), Root(), page, level - 1)
      ensures Extends(old(Mem()), old(pmm.used), old(tables), Mem(), pmm.used, tables, flags)
    {
      hide Owns, Hangs, Present, Huge, PteAddr, BitOr, MissingTables, Index, Mapping, HugeEntry, FreeCount,
           TableAt, PhysicalMemory.Mirrored, AllUsedBelow, WithTable, LeafEntry, Extends, TableGrown;
      PathInTree(Mem(), Root(), tables, page, level);
      var pte := frames[parent][idx];
      assert pte == Entry(Mem(), parent, idx);
      NextTable(Mem(), Root(), page, level, parent);
      ExtendsNothing(Mem(), pmm.used, tables, flags);
      if Present(pte) {
        TableWasThere(Mem(), Root(), page, level - 1);
        r := Returned(PteAddr(pte) / PAGE_SIZE);
        return;
      }
      FreeCountPositive(pmm.used);
      ghost var before := Mem();
      var phys := pmm.AllocPage();
      if phys.Panicked? {
        return Panicked;
      }
      var x := phys.value / PAGE_SIZE;
      var e := BitOr(phys.value, flags);
      Packing(phys.value, flags);
      assert CanAttach(before, tables, parent, idx, x, e);
      LinkEmptyTable(parent, idx, x, e);
      FreeCountUpdate(old(pmm.used), x, true);
      AttachOnPath(before, Root(), tables, parent, idx, x, e, page);
      AttachGrowsTable(before, Root(), tables, parent, idx, x, e, page);
      ExtendsByTable(before, old(pmm.used), tables, parent, idx, x, e, flags);
      tables := Grown(tables, parent, idx, x);
      r := Returned(x);
    }

    // ---- one page ----

    /** `paging_map`: afterwards the page maps to `phys`, every other page translates as
        before, and the kernel panics exactly when there are fewer free pages than missing
        tables on the path. */
    method PagingMap(virt: nat, phys: nat, flags: nat) returns (r: Outcome<()>)
      requires Valid() && FrameAddress(phys) && EntryFlags(flags)
      requires HugeEntry(Mem(), Root(), PageOf(virt)).None?
      modifies this`tables, frames, pmm, pmm.bitmap
      ensures Valid() && pmm.Drift() == old(pmm.Drift())
      ensures r.Panicked? <==> FreeCount(old(pmm.used)) < MissingTables(old(Mem()), Root(), PageOf(virt))
      ensures r.Panicked? ==> FreeCount(pmm.used) == 0 && SameMappings(old(Mem()), Mem(), Root())
      ensures r.Returned? ==>
                && Mapping(Mem(), Root(), PageOf(virt)) == Some(phys)
                && (forall q: nat :: q < VIRTUAL_PAGES && q != PageOf(virt) ==>
                      Mapping(Mem(), Root(), q) == Mapping(old(Mem()), Root(), q))
      ensures r.Returned? ==>
                FreeCount(pmm.used) ==
                FreeCount(old(pmm.used)) - MissingTables(old(Mem()), Root(), PageOf(virt))
      ensures r.Returned? ==> LeafSet(old(Mem()), Mem(), Root(), PageOf(virt), BitOr(phys, flags))
      ensures SameHuge(old(Mem()), Mem(), Root())
      ensures r.Returned? ==> PathGrown(old(Mem()), Mem(), Root(), PageOf(virt))
      ensures Extends(old(Mem()), old(pmm.used), old(tables), Mem(), pmm.used, tables, KERNEL_TABLE_FLAGS)
    {
      hide Mmu.Valid, Present, Huge, PteAddr, BitOr, BitAnd, Index, Mapping, HugeEntry, FreeCount, LeafEntry, Extends, TableAt,
           FrameAddress, TableGrown, PathGrown, SamePaths;
      ghost var m0, t0, u0 := Mem(), tables, pmm.used;
      ghost var page := PageOf(virt);
      IndexMacros(virt);
      TableFlags();
      PathFromRoot(Mem(), Root(), page);
      var pdpt := GetOrCreateTable(Root(), Pml4Index(virt), KERNEL_TABLE_FLAGS, page, 4);
      if pdpt.Panicked? {
        return Panicked;
      }
      ghost var m1, t1, u1 := Mem(), tables, pmm.used;
      var pd := GetOrCreateTable(pdpt.value, PdptIndex(virt), KERNEL_TABLE_FLAGS, page, 3);
      ExtendsTwice(m0, u0, t0, m1, u1, t1, Mem(), pmm.used, tables, KERNEL_TABLE_FLAGS);
      if pd.Panicked? {
        return Panicked;
      }
      ghost var m2, t2, u2 := Mem(), tables, pmm.used;
      var pt := GetOrCreateTable(pd.value, PdIndex(virt), KERNEL_TABLE_FLAGS, page, 2);
      ExtendsTwice(m0, u0, t0, m2, u2, t2, Mem(), pmm.used, tables, KERNEL_TABLE_FLAGS);
      if pt.Panicked? {
        return Panicked;
      }
      ghost var m3 := Mem();
      PathIsWhole(m3, Root(), page);
      WriteLeaf(pt.value, PtIndex(virt), BitOr(phys, flags), page);
      ExtendsTwice(m0, u0, t0, m3, pmm.used, tables, Mem(), pmm.used, tables, KERNEL_TABLE_FLAGS);
      ThreeTablesGrown(m0, m1, m2, m3, Mem(), Root(), page);
      Packing(phys, flags);
      r := Returned(());
    }

    /** The store into the page table of `page`. */
    method WriteLeaf(pt: nat, idx: nat, e: nat, ghost page: nat)
      requires Valid() && page < VIRTUAL_PAGES
      requires TableAt(Mem(), Root(), page, 1) == Some(pt) && idx == Index(page, 1)
      requires HugeEntry(Mem(), Root(), page).None?
      modifies frames
      ensures Valid() && SameHuge(old(Mem()), Mem(), Root())
      ensures Mapping(Mem(), Root(), page) == if Present(e) then Some(PteAddr(e)) else None
      ensures forall q: nat :: q < VIRTUAL_PAGES && q != page ==>
                Mapping(Mem(), Root(), q) == Mapping(old(Mem()), Root(), q)
      ensures LeafSet(old(Mem()), Mem(), Root(), page, e)
      ensures SamePaths(old(Mem()), Mem(), Root())
      ensures Extends(old(Mem()), pmm.used, tables, Mem(), pmm.used, tables, KERNEL_TABLE_FLAGS)
    {
      hide Owns, Hangs, Present, Huge, PteAddr, Index, TableAt, BitOr, Extends, SamePaths;
      ghost var before := Mem();
      forall q: nat | q < VIRTUAL_PAGES
        ensures pt < MAX_PAGES && pt in tables && tables[pt].level == 1
        ensures HugeEntry(Store(before, pt, idx, e), Root(), q) == HugeEntry(before, Root(), q)
        ensures LeafEntry(Store(before, pt, idx, e), Root(), q) ==
                if q == page then e else LeafEntry(before, Root(), q)
      {
        LeafStoreIsLocal(before, Root(), tables, pt, e, page, q);
      }
      LeafStoreIsLocal(before, Root(), tables, pt, e, page, page);
      LeafStoreKeepsAllPaths(before, Root(), tables, pt, idx, e);
      LeafStoreKeepsTree(before, Root(), tables, pt, idx, e);
      ExtendsByLeaf(before, pmm.used, tables, pt, idx, e, KERNEL_TABLE_FLAGS);
      frames[pt] := frames[pt][idx := e];
      assert Mem() == Store(before, pt, idx, e);
    }

    /** `paging_unmap`: afterwards the page has no translation, every other page translates
        as before. */
    method PagingUnmap(virt: nat)
      requires Valid() && HugeEntry(Mem(), Root(), PageOf(virt)).None?
      modifies frames
      ensures Valid() && SameHuge(old(Mem()), Mem(), Root())
      ensures Mapping(Mem(), Root(), PageOf(virt)).None?
      ensures forall q: nat :: q < VIRTUAL_PAGES && q != PageOf(virt) ==>
                Mapping(Mem(), Root(), q) == Mapping(old(Mem()), Root(), q)
      ensures LeafSet(old(Mem()), Mem(), Root(), PageOf(virt), 0)
      ensures SamePaths(old(Mem()), Mem(), Root())
      ensures Extends(old(Mem()), pmm.used, tables, Mem(), pmm.used, tables, KERNEL_TABLE_FLAGS)
    {
      hide Present, Huge, PteAddr, BitAnd, Index, Owns, Hangs, TableAt, BitOr, Extends;
      ExtendsNothing(Mem(), pmm.used, tables, KERNEL_TABLE_FLAGS);
      ghost var page := PageOf(virt);
      IndexMacros(virt);
      PathFromRoot(Mem(), Root(), page);
      var pml4 := Root();
      NextTable(Mem(), Root(), page, 4, pml4);
      if !Present(frames[pml4][Pml4Index(virt)]) {
        NoTableNoMapping(Mem(), Root(), page, 3);
        return;
      }
      var pdpt := PteAddr(frames[pml4][Pml4Index(virt)]) / PAGE_SIZE;
      PathInTree(Mem(), Root(), tables, page, 3);
      NextTable(Mem(), Root(), page, 3, pdpt);
      if !Present(frames[pdpt][PdptIndex(virt)]) {
        NoTableNoMapping(Mem(), Root(), page, 2);
        return;
      }
      var pd := PteAddr(frames[pdpt][PdptIndex(virt)]) / PAGE_SIZE;
      PathInTree(Mem(), Root(), tables, page, 2);
      NextTable(Mem(), Root(), page, 2, pd);
      if !Present(frames[pd][PdIndex(virt)]) {
        NoTableNoMapping(Mem(), Root(), page, 1);
        return;
      }
      var pt := PteAddr(frames[pd][PdIndex(virt)]) / PAGE_SIZE;
      ZeroIsAbsent();
      WriteLeaf(pt, PtIndex(virt), 0, page);
    }

    /** The tables on the path of an address lie in memory. */
    ghost predicate PathInMemory(virt: nat)
      reads this`cr3, frames
    {
      && WellSized(Mem()) && Root() < MAX_PAGES
      && forall l :: 1 <= l <= 3 && TableAt(Mem(), Root(), PageOf(virt), l).Some? ==>
           TableAt(Mem(), Root(), PageOf(virt), l).value < MAX_PAGES
    }

    /** That holds for every address when the root is an ownership tree. */
    lemma TreeIsInMemory(virt: nat)
      requires Valid()
      ensures PathInMemory(virt)
    {
      forall l | 1 <= l <= 3 && TableAt(Mem(), Root(), PageOf(virt), l).Some?
        ensures TableAt(Mem(), Root(), PageOf(virt), l).value < MAX_PAGES
      {
        PathInTree(Mem(), Root(), tables, PageOf(virt), l);
      }
    }

    /** `paging_virt_to_phys` computes the translation, with 0 for "not mapped", under any root,
        the one of the boot code included. */
    method PagingVirtToPhys(virt: nat) returns (phys: nat)
      requires PathInMemory(virt)
      ensures phys == match Translate(Mem(), Root(), virt) case None => 0 case Some(a) => a
      ensures phys == match WalkFrom(Mem(), Root(), virt, 4) case None => 0 case Some(a) => a
    {
      TranslateIsWalk(Mem(), Root(), virt);
      hide WalkFrom;
      hide Present, Huge, PteAddr, BitAnd, Index, Upper;
      ghost var page := PageOf(virt);
      IndexMacros(virt);
      HugeOffset(virt);
      ZeroIsAbsent();
      var pml4 := Root();
      if !Present(frames[pml4][Pml4Index(virt)]) {
        return 0;
      }
      var pdpt := PteAddr(frames[pml4][Pml4Index(virt)]) / PAGE_SIZE;
      assert TableAt(Mem(), Root(), page, 3) == Some(pdpt);
      if !Present(frames[pdpt][PdptIndex(virt)]) {
        return 0;
      }
      var pd := PteAddr(frames[pdpt][PdptIndex(virt)]) / PAGE_SIZE;
      assert TableAt(Mem(), Root(), page, 2) == Some(pd);
      if !Present(frames[pd][PdIndex(virt)]) {
        return 0;
      }
      if Huge(frames[pd][PdIndex(virt)]) {
        return PteAddr(frames[pd][PdIndex(virt)]) + BitAnd(virt, 0x1F_FFFF);
      }
      var pt := PteAddr(frames[pd][PdIndex(virt)]) / PAGE_SIZE;
      assert TableAt(Mem(), Root(), page, 1) == Some(pt);
      if !Present(frames[pt][PtIndex(virt)]) {
        return 0;
      }
      return PteAddr(frames[pt][PtIndex(virt)]) + PageOffset(virt);
    }

    // ---- ranges ----

    /** `vmm_map_range`: the range maps affinely, and nothing else changes. */
    method MapRange(virt: nat, phys: nat, size: nat, flags: nat) returns (r: Outcome<()>)
      requires Valid() && EntryFlags(flags)
      requires size + PAGE_SIZE <= WORD_LIMIT
      requires AlignUp(size, PAGE_SIZE) <= VIRTUAL_LIMIT
      requires phys % PAGE_SIZE == 0 && phys + AlignUp(size, PAGE_SIZE) <= PHYSICAL_LIMIT
      requires NoHugeIn(Mem(), Root(), PageOf(virt), AlignUp(size, PAGE_SIZE) / PAGE_SIZE)
      modifies this`tables, frames, pmm, pmm.bitmap
      ensures Valid() && pmm.Drift() == old(pmm.Drift())
      ensures r.Panicked? <==>
                FreeCount(old(pmm.used)) <
                RangeMissing(old(Mem()), Root(), PageOf(virt), AlignUp(size, PAGE_SIZE) / PAGE_SIZE)
      ensures r.Panicked? ==> FreeCount(pmm.used) == 0
      ensures r.Returned? ==>
                && RangeGrown(old(Mem()), Mem(), Root(), PageOf(virt), AlignUp(size, PAGE_SIZE) / PAGE_SIZE)
                && FreeCount(old(pmm.used)) == FreeCount(pmm.used)
                   + RangeMissing(old(Mem()), Root(), PageOf(virt), AlignUp(size, PAGE_SIZE) / PAGE_SIZE)
      ensures r.Returned? ==>
                RangeMapped(old(Mem()), Mem(), Root(), PageOf(virt), AlignUp(size, PAGE_SIZE) / PAGE_SIZE, phys)
      ensures r.Returned? ==>
                RangeEntries(old(Mem()), Mem(), Root(), PageOf(virt), AlignUp(size, PAGE_SIZE) / PAGE_SIZE, phys, flags)
      ensures SameHuge(old(Mem()), Mem(), Root())
      ensures Extends(old(Mem()), old(pmm.used), old(tables), Mem(), pmm.used, tables, KERNEL_TABLE_FLAGS)
    {
      hide Tree, PhysicalMemory.Mirrored, EntryFlags, Mapping, HugeEntry, Root, Distance, PageOf, FreeCount,
           LeafEntry, BitOr, LeafSet, Extends, RangeGrown, RangeMissing, PathGrown, MissingTables, RangeMapped, RangeEntries;
      ExtendsNothing(Mem(), pmm.used, tables, KERNEL_TABLE_FLAGS);
      NothingGrown(Mem(), Root(), PageOf(virt));
      EmptyRange(Mem(), Root(), PageOf(virt), phys, flags);
      ghost var first := PageOf(virt);
      var limit := AlignUp(size, PAGE_SIZE);
      var offset := 0;
      ghost var k: nat := 0;
      while offset < limit
        invariant offset == k * PAGE_SIZE && offset <= limit
        invariant Valid() && pmm.Drift() == old(pmm.Drift())
        invariant RangeMapped(old(Mem()), Mem(), Root(), first, k, phys)
        invariant RangeEntries(old(Mem()), Mem(), Root(), first, k, phys, flags)
        invariant Extends(old(Mem()), old(pmm.used), old(tables), Mem(), pmm.used, tables, KERNEL_TABLE_FLAGS)
        invariant SameHuge(old(Mem()), Mem(), Root())
        invariant RangeGrown(old(Mem()), Mem(), Root(), first, k) && k <= VIRTUAL_PAGES
        invariant FreeCount(old(pmm.used)) == FreeCount(pmm.used) + RangeMissing(old(Mem()), Root(), first, k)
      {
        NthPage(virt, k);
        ghost var before, t0, u0, page := Mem(), tables, pmm.used, PageOf((virt + offset) % WORD_LIMIT);
        MissingNext(old(Mem()), before, Root(), first, k, page);
        MissingGrows(old(Mem()), Root(), first, k + 1, limit / PAGE_SIZE);
        r := PagingMap((virt + offset) % WORD_LIMIT, phys + offset, flags);
        ExtendsTwice(old(Mem()), old(pmm.used), old(tables), before, u0, t0, Mem(), pmm.used, tables, KERNEL_TABLE_FLAGS);
        if r.Panicked? {
          return;
        }
        RangeMappedStep(old(Mem()), before, Mem(), Root(), first, k, phys, page);
        RangeEntriesStep(old(Mem()), before, Mem(), Root(), first, k, phys, flags, page);
        GrownNext(old(Mem()), before, Mem(), Root(), first, k, page);
        offset := offset + PAGE_SIZE;
        k := k + 1;
      }
      r := Returned(());
    }

    /** `vmm_unmap_range`: the range has no translation, and nothing else changes. */
    method UnmapRange(virt: nat, size: nat)
      requires Valid()
      requires size + PAGE_SIZE <= WORD_LIMIT && AlignUp(size, PAGE_SIZE) <= VIRTUAL_LIMIT
      requires NoHugeIn(Mem(), Root(), PageOf(virt), AlignUp(size, PAGE_SIZE) / PAGE_SIZE)
      modifies frames
      ensures Valid()
      ensures RangeUnmapped(old(Mem()), Mem(), Root(), PageOf(virt), AlignUp(size, PAGE_SIZE) / PAGE_SIZE)
      ensures RangeCleared(old(Mem()), Mem(), Root(), PageOf(virt), AlignUp(size, PAGE_SIZE) / PAGE_SIZE)
      ensures SameHuge(old(Mem()), Mem(), Root())
      ensures SamePaths(old(Mem()), Mem(), Root())
      ensures Extends(old(Mem()), pmm.used, tables, Mem(), pmm.used, tables, KERNEL_TABLE_FLAGS)
    {
      hide Tree, PhysicalMemory.Mirrored, Mapping, HugeEntry, Root, Distance, PageOf, LeafEntry, LeafSet, Extends, SamePaths;
      PathsSame(Mem(), Root());
      ExtendsNothing(Mem(), pmm.used, tables, KERNEL_TABLE_FLAGS);
      ghost var first := PageOf(virt);
      var limit := AlignUp(size, PAGE_SIZE);
      var offset := 0;
      ghost var k: nat := 0;
      while offset < limit
        invariant offset == k * PAGE_SIZE && offset <= limit
        invariant Valid()
        invariant RangeUnmapped(old(Mem()), Mem(), Root(), first, k)
        invariant RangeCleared(old(Mem()), Mem(), Root(), first, k)
        invariant Extends(old(Mem()), pmm.used, tables, Mem(), pmm.used, tables, KERNEL_TABLE_FLAGS)
        invariant SamePaths(old(Mem()), Mem(), Root())
        invariant SameHuge(old(Mem()), Mem(), Root())
      {
        NthPage(virt, k);
        ghost var before := Mem();
        PagingUnmap((virt + offset) % WORD_LIMIT);
        ExtendsTwice(old(Mem()), pmm.used, tables, before, pmm.used, tables, Mem(), pmm.used, tables, KERNEL_TABLE_FLAGS);
        PathsSameTwice(old(Mem()), before, Mem(), Root());
        RangeClearedStep(old(Mem()), before, Mem(), Root(), first, k, PageOf((virt + offset) % WORD_LIMIT));
        RangeUnmappedStep(old(Mem()), before, Mem(), Root(), first, k, PageOf((virt + offset) % WORD_LIMIT));
        offset := offset + PAGE_SIZE;
        k := k + 1;
      }
    }

    // ---- address spaces ----

    /** The pages of `[heapStart, heapEnd)` map, one to one, to used frames that are no
        tables. */
    ghost predicate Backed(space: AddressSpace)
      reads this, frames, pmm, space
    {
      && space.heapStart % PAGE_SIZE == 0 && space.heapEnd % PAGE_SIZE == 0
      && space.heapStart <= space.heapEnd < VIRTUAL_LIMIT
      && |pmm.used| == MAX_PAGES
      && HeapBacked(Mem(), Root(), tables, pmm.used, space.heapStart / PAGE_SIZE, space.heapEnd / PAGE_SIZE)
    }

    /** `vmm_create_address_space`; `granted` says whether `kmalloc` found room for the
        record.  The active translation does not change, and the new root is an empty tree. */
    method CreateAddressSpace(granted: bool) returns (r: Outcome<AddressSpace?>)
      requires Valid()
      modifies frames, pmm, pmm.bitmap
      ensures Valid() && pmm.Drift() == old(pmm.Drift())
      ensures SameMappings(old(Mem()), Mem(), Root()) && SameHuge(old(Mem()), Mem(), Root())
      ensures OthersKept(old(Mem()), old(pmm.used), old(tables), Mem())
      ensures !granted ==> r == Returned(null) && Mem() == old(Mem()) && pmm.used == old(pmm.used)
      ensures granted ==> (r.Panicked? <==> FreeCount(old(pmm.used)) == 0) && r != Returned(null)
      ensures r.Returned? && r.value != null ==>
                && fresh(r.value)
                && var root := RootFrame(r.value.pml4Phys);
                && r.value.pml4Phys < WORD_LIMIT
                && root < MAX_PAGES && !old(pmm.used)[root] && pmm.used == old(pmm.used)[root := true]
                && Tree(Mem(), root, EmptyRoot(root))
                && (forall page :: Mapping(Mem(), root, page).None?)
                && r.value.heapStart == r.value.heapEnd == 0x40_0000 && r.value.stackTop == 0x7FFF_FFFF_E000
    {
      hide Owns, Hangs, Mapping, HugeEntry, FreeCount;
      if !granted {
        return Returned(null);
      }
      FreeCountPositive(pmm.used);
      ghost var before := Mem();
      var phys := pmm.AllocPage();
      if phys.Panicked? {
        return Panicked;
      }
      var x := phys.value / PAGE_SIZE;
      ForeignFrameKeepsTree(before, Root(), tables, x);
      frames[x] := EmptyFrame();
      assert Mem() == before[x := EmptyFrame()];
      EmptyRootIsTree(Mem(), x);
      RootFrameValue(phys.value);
      var space := new AddressSpace(phys.value);
      r := Returned(space);
    }

    /** `vmm_switch_address_space` to a root that heads an ownership tree of used frames, or to
        nothing.  The tree that is left stands, which is what a switch back needs. */
    method SwitchAddressSpace(space: AddressSpace?, ghost owned: Tables)
      requires Valid()
      requires space != null ==>
                 && space.pml4Phys < WORD_LIMIT && Tree(Mem(), RootFrame(space.pml4Phys), owned)
                 && forall f :: f in owned ==> f < MAX_PAGES && pmm.used[f]
      modifies this`cr3, this`tables
      ensures Valid()
      ensures space == null ==> cr3 == old(cr3) && tables == old(tables)
      ensures space != null ==> cr3 == space.pml4Phys && tables == owned
      ensures Tree(Mem(), old(Root()), old(tables))
      ensures forall f :: f in old(tables) ==> f < MAX_PAGES && pmm.used[f]
    {
      hide Owns, Hangs, PhysicalMemory.Mirrored;
      if space != null {
        cr3 := space.pml4Phys;
        tables := owned;
      }
    }

    /** Switching to another space whose tables are all its own, mapping a page there and
        switching back: the home space translates every address as before. */
    method MapElsewhere(home: AddressSpace, other: AddressSpace, virt: nat, phys: nat, flags: nat, ghost owned: Tables)
      returns (r: Outcome<()>, ghost grown: Tables)
      requires Valid() && cr3 == home.pml4Phys && other.pml4Phys < WORD_LIMIT
      requires Tree(Mem(), RootFrame(other.pml4Phys), owned)
      requires forall f :: f in owned ==> f < MAX_PAGES && pmm.used[f] && f !in tables
      requires FrameAddress(phys) && EntryFlags(flags)
      requires HugeEntry(Mem(), RootFrame(other.pml4Phys), PageOf(virt)).None?
      modifies this, frames, pmm, pmm.bitmap
      ensures r.Panicked? <==>
                FreeCount(old(pmm.used)) < MissingTables(old(Mem()), RootFrame(other.pml4Phys), PageOf(virt))
      ensures r.Returned? ==>
                && Valid() && cr3 == old(cr3) && tables == old(tables)
                && (forall page :: Mapping(Mem(), Root(), page) == Mapping(old(Mem()), Root(), page))
                && Mapping(Mem(), RootFrame(other.pml4Phys), PageOf(virt)) == Some(phys)
                && Tree(Mem(), RootFrame(other.pml4Phys), grown)
                && (forall f :: f in grown ==> f < MAX_PAGES && pmm.used[f] && f !in tables)
    {
      hide Tree, PhysicalMemory.Mirrored, EntryFlags, FrameAddress, Mapping, HugeEntry, PageOf, FreeCount, MissingTables,
           OnlyNewLinks, RootFrame, SameHuge, LeafSet, PathGrown;
      ghost var before, mine, free := Mem(), tables, pmm.used;
      TreeIsSized(before, Root(), mine);
      assert forall f :: f in mine ==> free[f];
      SwitchAddressSpace(other, owned);
      r := PagingMap(virt, phys, flags);
      grown := tables;
      if r.Panicked? {
        return;
      }
      MineIsOther(before, free, owned, Mem(), mine);
      TreeIsSized(Mem(), Root(), tables);
      UntouchedTreeStands(before, Mem(), RootFrame(home.pml4Phys), mine);
      SwitchAddressSpace(home, mine);
    }

    /** `pmm_alloc_pages` as seen from here: the run it takes is disjoint from the tables. */
    method TakePages(count: nat) returns (r: Outcome<nat>)
      requires Valid()
      modifies pmm, pmm.bitmap
      ensures Valid() && pmm.Drift() == old(pmm.Drift())
      ensures |pmm.used| == |old(pmm.used)| == MAX_PAGES
      ensures count == 0 ==> r == Returned(0) && pmm.used == old(pmm.used)
      ensures count > 0 ==> (r.Panicked? <==> !HasRun(old(pmm.used), count))
      ensures r.Panicked? ==> pmm.used == old(pmm.used)
      ensures count > 0 && r.Returned? ==>
                && r.value % PAGE_SIZE == 0
                && IsRun(old(pmm.used), r.value / PAGE_SIZE, count)
                && pmm.used == Filled(old(pmm.used), r.value / PAGE_SIZE, r.value / PAGE_SIZE + count, true)
      ensures forall f :: f in tables ==> f < MAX_PAGES && old(pmm.used)[f]
    {
      hide Owns, Hangs, PhysicalMemory.Mirrored, FreeCount, IsRun, HasRun;
      r := pmm.AllocPages(count);
    }

    /** `vmm_alloc_pages`: a run of free frames, mapped at the end of the heap when an address
        space is given; the heap stays fully and injectively backed.  The call panics exactly
        when there is no run, or when the rest of memory does not suffice for the tables. */
    method VmmAllocPages(space: AddressSpace?, count: nat, flags: nat)
      returns (r: Outcome<nat>, ghost run: nat)
      requires Valid() && EntryFlags(flags)
      requires space != null ==>
                 && Backed(space) && space.heapEnd + count * PAGE_SIZE < VIRTUAL_LIMIT
                 && NoHugeIn(Mem(), Root(), PageOf(space.heapEnd), count)
      modifies this`tables, frames, pmm, pmm.bitmap, space
      ensures Valid() && pmm.Drift() == old(pmm.Drift())
      ensures space == null ==> Mem() == old(Mem()) && tables == old(tables)
      ensures space == null && count == 0 ==> r == Returned(0) && pmm.used == old(pmm.used)
      ensures space == null && count > 0 ==> (r.Panicked? <==> !HasRun(old(pmm.used), count))
      ensures space == null && count > 0 && r.Returned? ==>
                && IsRun(old(pmm.used), r.value / PAGE_SIZE, count)
                && pmm.used == Filled(old(pmm.used), r.value / PAGE_SIZE, r.value / PAGE_SIZE + count, true)
      ensures space != null ==>
                var need := RangeMissing(old(Mem()), Root(), PageOf(old(space.heapEnd)), count);
                && (r.Panicked? <==>
                      count > 0 && (!HasRun(old(pmm.used), count) || FreeCount(old(pmm.used)) < count + need))
                && (r.Returned? ==> FreeCount(old(pmm.used)) == FreeCount(pmm.used) + count + need)
      ensures space != null && r.Panicked? ==>
                && space.heapEnd == old(space.heapEnd) && space.heapStart == old(space.heapStart)
                && (!HasRun(pmm.used, count) || FreeCount(pmm.used) == 0)
      ensures space != null && r.Returned? ==>
                && r.value == old(space.heapEnd)
                && space.heapEnd == old(space.heapEnd) + count * PAGE_SIZE
                && space.heapStart == old(space.heapStart)
                && Backed(space)
                && RangeGrown(old(Mem()), Mem(), Root(), PageOf(old(space.heapEnd)), count)
      ensures space != null && r.Returned? ==>
                && IsRun(old(pmm.used), run, count)
                && RangeMapped(old(Mem()), Mem(), Root(), PageOf(old(space.heapEnd)), count, run * PAGE_SIZE)
                && RangeEntries(old(Mem()), Mem(), Root(), PageOf(old(space.heapEnd)), count, run * PAGE_SIZE, flags)
      ensures SameHuge(old(Mem()), Mem(), Root())
      ensures OthersKept(old(Mem()), old(pmm.used), old(tables), Mem())
    {
      hide Mmu.Valid, Mapping, HugeEntry, HeapBacked, RangeMapped, RangeEntries, IsRun, HasRun, NoHugeIn, Filled,
           AllUsedBelow, AlignUp, PageOf, EntryFlags, FreeCount, RangeMissing, RangeGrown, OthersKept;
      run := 0;
      ghost var free, m := pmm.used, Mem();
      OthersSame(m, free, tables);
      var phys := TakePages(count);
      assert Mem() == m;
      if phys.Panicked? {
        r := Panicked;
        return;
      }
      if space == null {
        r := Returned(phys.value);
        return;
      }
      run := if count > 0 then phys.value / PAGE_SIZE else 0;
      RunFits(free, run, count);
      FillNone(free, run, true);
      if count > 0 {
        RunIsRun(free, run, count);
      }
      r := MapAtEnd(space, phys.value, count, flags, free, run);
    }

    /** The mapping half of `vmm_alloc_pages`: the run was taken from the flags `free`. */
    method MapAtEnd(space: AddressSpace, phys: nat, count: nat, flags: nat, ghost free: seq<bool>, ghost run: nat)
      returns (r: Outcome<nat>)
      requires Valid() && EntryFlags(flags) && |free| == MAX_PAGES
      requires phys == run * PAGE_SIZE && IsRun(free, run, count) && run + count <= MAX_PAGES
      requires pmm.used == Filled(free, run, run + count, true)
      requires forall f :: f in tables ==> f < MAX_PAGES && free[f]
      requires space.heapStart % PAGE_SIZE == 0 && space.heapEnd % PAGE_SIZE == 0
      requires space.heapStart <= space.heapEnd && space.heapEnd + count * PAGE_SIZE < VIRTUAL_LIMIT
      requires HeapBacked(Mem(), Root(), tables, free, space.heapStart / PAGE_SIZE, space.heapEnd / PAGE_SIZE)
      requires NoHugeIn(Mem(), Root(), PageOf(space.heapEnd), count)
      modifies this`tables, frames, pmm, pmm.bitmap, space
      ensures Valid() && pmm.Drift() == old(pmm.Drift())
      ensures var need := RangeMissing(old(Mem()), Root(), PageOf(old(space.heapEnd)), count);
              && (r.Panicked? <==> FreeCount(free) < count + need)
              && (r.Returned? ==> FreeCount(free) == FreeCount(pmm.used) + count + need)
      ensures r.Panicked? ==>
                && space.heapEnd == old(space.heapEnd) && space.heapStart == old(space.heapStart)
                && FreeCount(pmm.used) == 0 && count > 0
      ensures r.Returned? ==>
                && r.value == old(space.heapEnd)
                && space.heapEnd == old(space.heapEnd) + count * PAGE_SIZE
                && space.heapStart == old(space.heapStart)
                && Backed(space)
                && RangeGrown(old(Mem()), Mem(), Root(), PageOf(old(space.heapEnd)), count)
      ensures r.Returned? ==>
                && RangeMapped(old(Mem()), Mem(), Root(), PageOf(old(space.heapEnd)), count, phys)
                && RangeEntries(old(Mem()), Mem(), Root(), PageOf(old(space.heapEnd)), count, phys, flags)
      ensures SameHuge(old(Mem()), Mem(), Root())
      ensures OthersKept(old(Mem()), free, old(tables), Mem())
    {
      hide Mmu.Valid, Mapping, HugeEntry, HeapBacked, RangeMapped, RangeEntries, IsRun, NoHugeIn, Filled,
           AllUsedBelow, AlignUp, PageOf, EntryFlags, FreeCount, RangeMissing, RangeGrown, OthersKept, OnlyNewLinks;
      var virt := space.heapEnd;
      ghost var m, t, taken := Mem(), tables, pmm.used;
      RunCount(free, run, count);
      HeapEndPages(virt, count);
      PagesAreMany(count);
      var done := MapRange(virt, phys, count * PAGE_SIZE, flags);
      OthersKeptByLess(m, free, taken, run, count, t, Mem());
      if done.Panicked? {
        if count == 0 {
          NothingMissing(m, Root(), PageOf(virt));
        }
        return Panicked;
      }
      HeapGrows(m, t, free, taken, Mem(), tables, pmm.used, Root(), space.heapStart / PAGE_SIZE, virt / PAGE_SIZE, count, run);
      space.heapEnd := space.heapEnd + count * PAGE_SIZE;
      r := Returned(virt);
    }

    /** Any run of `vmm_alloc_pages` on one address space, stopped by the first panic: `served`
        calls return, each at the end of the one before, and free pages go exactly into what
        was asked for and the tables missing on the way.  A panic means that the next call
        finds no run or that memory ran out on its tables. */
    method GrowHeap(space: AddressSpace, counts: seq<nat>, flags: nat) returns (r: Outcome<nat>, served: nat)
      requires Valid() && EntryFlags(flags) && Backed(space)
      requires space.heapEnd + Sum(counts) * PAGE_SIZE < VIRTUAL_LIMIT
      requires NoHugeIn(Mem(), Root(), PageOf(space.heapEnd), Sum(counts))
      modifies this`tables, frames, pmm, pmm.bitmap, space
      ensures Valid() && pmm.Drift() == old(pmm.Drift())
      ensures served <= |counts| && space.heapStart == old(space.heapStart)
      ensures space.heapEnd == old(space.heapEnd) + Sum(counts[..served]) * PAGE_SIZE
      ensures r.Panicked? <==> served < |counts|
      ensures r.Panicked? ==> !HasRun(pmm.used, counts[served]) || FreeCount(pmm.used) == 0
      ensures r.Returned? ==>
                && Backed(space) && r.value == space.heapEnd
                && RangeGrown(old(Mem()), Mem(), Root(), PageOf(old(space.heapEnd)), Sum(counts))
                && FreeCount(old(pmm.used)) == FreeCount(pmm.used) + Sum(counts)
                   + RangeMissing(old(Mem()), Root(), PageOf(old(space.heapEnd)), Sum(counts))
    {
      hide Mmu.Valid, Mapping, HugeEntry, HeapBacked, RangeMapped, RangeEntries, IsRun, HasRun, NoHugeIn, SameHuge, Filled,
           PageOf, EntryFlags, Sum, FreeCount, RangeMissing, RangeGrown, OthersKept;
      served := 0;
      ghost var m0, free, start := Mem(), FreeCount(pmm.used), space.heapEnd;
      ghost var first := PageOf(start);
      SumStarts(counts);
      NothingGrown(m0, Root(), first);
      NothingMissing(m0, Root(), first);
      while served < |counts|
        invariant served <= |counts|
        invariant Valid() && pmm.Drift() == old(pmm.Drift()) && Backed(space)
        invariant space.heapStart == old(space.heapStart)
        invariant Sum(counts[..served]) + Sum(counts[served..]) == Sum(counts)
        invariant space.heapEnd == start + Sum(counts[..served]) * PAGE_SIZE
        invariant NoHugeIn(Mem(), Root(), PageOf(space.heapEnd), Sum(counts[served..]))
        invariant Sum(counts[..served]) < VIRTUAL_PAGES
        invariant RangeGrown(m0, Mem(), Root(), first, Sum(counts[..served]))
        invariant free == FreeCount(pmm.used) + Sum(counts[..served])
                          + RangeMissing(m0, Root(), first, Sum(counts[..served]))
      {
        SumSplits(counts, served);
        ghost var before, was, done, rest := Mem(), space.heapEnd, Sum(counts[..served]), Sum(counts[served + 1..]);
        assert NoHugeIn(before, Root(), PageOf(was), counts[served]) by {
          NoHugePrefix(before, Root(), PageOf(was), counts[served], rest);
        }
        ghost var run;
        r, run := VmmAllocPages(space, counts[served], flags);
        if r.Panicked? {
          return;
        }
        NoHugeBehind(before, Mem(), Root(), was, counts[served], rest);
        InParts(m0, before, Mem(), Root(), start, done, counts[served], rest);
        served := served + 1;
      }
      SumEnds(counts);
      r := Returned(space.heapEnd);
    }
  }
}
