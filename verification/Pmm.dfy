/** kernel/mm/pmm.c: the bitmap physical memory manager. */
module Pmm {
  import opened Wrappers
  import opened Words
  import opened FrameBits

  const MAX_PAGES: nat := 1024 * 1024
  const BITMAP_WORDS: nat := MAX_PAGES / 64
  const MB2_MMAP_TYPE_AVAILABLE: nat := 1
  const KERNEL_PHYS_BASE: nat := 0x100_0000

  /** One entry of the boot loader's memory map. */
  datatype MmapEntry = MmapEntry(base: nat, length: nat, kind: nat)

  function FirstPage(e: MmapEntry): nat {
    e.base / PAGE_SIZE
  }

  function PageCount(e: MmapEntry): nat {
    e.length / PAGE_SIZE
  }

  /** Page `p` is managed and lies in an available entry. */
  predicate Offers(e: MmapEntry, p: nat) {
    && e.kind == MB2_MMAP_TYPE_AVAILABLE
    && p < MAX_PAGES
    && FirstPage(e) <= p < FirstPage(e) + PageCount(e)
  }

  /** No managed page is offered by two entries. */
  ghost predicate PageDisjoint(mmap: seq<MmapEntry>) {
    forall i, j, p: nat :: 0 <= i < j < |mmap| && Offers(mmap[i], p) ==> !Offers(mmap[j], p)
  }

  /** Some entry offers page `p`. */
  ghost predicate Offered(mmap: seq<MmapEntry>, p: nat) {
    exists i :: 0 <= i < |mmap| && Offers(mmap[i], p)
  }

  /** What an entry adds to the page total: available entries are cut at the last managed
      page, the others are not. */
  function Claimed(e: MmapEntry): nat {
    if e.kind != MB2_MMAP_TYPE_AVAILABLE then PageCount(e)
    else if FirstPage(e) + PageCount(e) <= MAX_PAGES then PageCount(e)
    else if FirstPage(e) <= MAX_PAGES then MAX_PAGES - FirstPage(e)
    else 0
  }

  /** An available entry adds exactly the pages it offers, which lie in a row. */
  lemma ClaimedIsOffered(e: MmapEntry, p: nat)
    ensures Offers(e, p) <==> e.kind == 1 && FirstPage(e) <= p < FirstPage(e) + Claimed(e)
    ensures e.kind != 1 ==> 4096 * Claimed(e) <= e.length < 4096 * Claimed(e) + 4096
  {
  }

  function TotalClaimed(mmap: seq<MmapEntry>): nat {
    if mmap == [] then 0 else TotalClaimed(mmap[..|mmap| - 1]) + Claimed(mmap[|mmap| - 1])
  }

  /** One more entry keeps the map disjoint exactly when it offers no page twice. */
  lemma DisjointExtends(mmap: seq<MmapEntry>, e: MmapEntry)
    ensures PageDisjoint(mmap + [e]) <==>
            PageDisjoint(mmap) && forall p: nat :: Offers(e, p) ==> !Offered(mmap, p)
  {
    var longer := mmap + [e];
    assert longer[|mmap|] == e;
    assert forall i :: 0 <= i < |mmap| ==> longer[i] == mmap[i];
    if PageDisjoint(longer) {
      forall i, j, p: nat | 0 <= i < j < |mmap| && Offers(mmap[i], p)
        ensures !Offers(mmap[j], p)
      {
        assert Offers(longer[i], p);
        assert !Offers(longer[j], p);
      }
      forall i, p: nat | 0 <= i < |mmap| && Offers(mmap[i], p)
        ensures !Offers(e, p)
      {
        assert Offers(longer[i], p);
        assert !Offers(longer[|mmap|], p);
      }
    }
  }

  lemma OfferedExtends(mmap: seq<MmapEntry>, e: MmapEntry, p: nat)
    ensures Offered(mmap + [e], p) <==> Offered(mmap, p) || Offers(e, p)
  {
    var longer := mmap + [e];
    assert longer[|mmap|] == e;
    if i :| 0 <= i < |mmap| && Offers(mmap[i], p) {
      assert Offers(longer[i], p);
    }
    if i :| 0 <= i < |longer| && Offers(longer[i], p) {
      assert i == |mmap| || Offers(mmap[i], p);
    }
  }

  /** The flags `used` say exactly which pages no entry offers. */
  ghost predicate Matches(used: seq<bool>, mmap: seq<MmapEntry>)
    requires |used| == MAX_PAGES
  {
    forall p: nat :: p < MAX_PAGES ==> (used[p] <==> !Offered(mmap, p))
  }

  lemma MatchesExtends(before: seq<bool>, after: seq<bool>, mmap: seq<MmapEntry>, e: MmapEntry)
    requires |before| == |after| == MAX_PAGES && Matches(before, mmap)
    requires forall p: nat :: p < MAX_PAGES ==> (after[p] <==> before[p] && !Offers(e, p))
    ensures Matches(after, mmap + [e])
    ensures PageDisjoint(mmap + [e]) <==>
            PageDisjoint(mmap) && forall p: nat :: Offers(e, p) ==> before[p]
  {
    DisjointExtends(mmap, e);
    forall p: nat | p < MAX_PAGES
      ensures after[p] <==> !Offered(mmap + [e], p)
    {
      OfferedExtends(mmap, e, p);
    }
  }

  /** Pages the boot code never hands out: the low 1 MiB and the kernel image. */
  predicate ReservedAtBoot(p: nat) {
    p < 256 || KERNEL_PHYS_BASE / PAGE_SIZE <= p < KERNEL_PHYS_BASE / PAGE_SIZE + 768
  }

  /** In bytes: the first MiB, and the 3 MiB from 16 MiB on. */
  lemma ReservedBytes(p: nat)
    ensures ReservedAtBoot(p) <==> 4096 * p < 0x10_0000 || 0x100_0000 <= 4096 * p < 0x100_0000 + 3 * 1024 * 1024
  {
  }

  /** Every byte of page `p` belongs to the entry. */
  predicate Inside(e: MmapEntry, p: nat) {
    e.base <= 4096 * p && 4096 * p + 4096 <= e.base + e.length
  }

  /** An available entry offers only pages that lie inside it if and only if it starts on a page
      boundary or offers nothing: its start is rounded down. */
  lemma OffersInside(e: MmapEntry)
    ensures (forall p: nat :: Offers(e, p) ==> Inside(e, p)) <==>
            e.base % 4096 == 0 || (forall p: nat :: !Offers(e, p))
  {
    if e.base % 4096 == 0 {
      forall p: nat | Offers(e, p)
        ensures Inside(e, p)
      {
        assert e.base == 4096 * FirstPage(e) && e.length >= 4096 * PageCount(e);
      }
    } else if p: nat :| Offers(e, p) {
      assert Offers(e, FirstPage(e)) && !Inside(e, FirstPage(e));
    }
  }

  /** On a page boundary an entry offers exactly its managed pages. */
  lemma AlignedOffers(e: MmapEntry, p: nat)
    requires e.base % 4096 == 0
    ensures Offers(e, p) <==> e.kind == 1 && p < 1024 * 1024 && Inside(e, p)
  {
    assert e.base == 4096 * FirstPage(e);
  }

  /** An instance: an entry of one page's length from byte 0x1800 on offers page 1, half of which
      lies before it. */
  lemma UnalignedEntry()
    ensures var e := MmapEntry(0x1800, 0x1000, 1);
            Offers(e, 1) && !Inside(e, 1) && forall p: nat :: Offers(e, p) ==> p == 1
  {
  }

  /** A loose hint makes the hinted search and the general scan disagree: of all pages only page
      1000 is free and the hint is 500, then `pmm_mark_free` releases page 300. */
  lemma LooseHintMissesLowest()
    ensures var before := seq(MAX_PAGES, p => p != 1000);
            var used := Filled(before, 300, 301, false);
            && AllUsedBelow(before, 500) && !AllUsedBelow(used, 500)
            && IsNextFit(used, 500, 1000) && IsLowestRun(used, 300, 1) && !IsLowestRun(used, 1000, 1)
  {
    var used := Filled(seq(MAX_PAGES, p => p != 1000), 300, 301, false);
    assert !used[300] && !used[1000];
    assert IsRun(used, 300, 1);
    forall t: nat | t < 300
      ensures !IsRun(used, t, 1)
    {
      assert used[t];
    }
  }

  class PhysicalMemory {
    const bitmap: array<nat>
    var totalPages: nat
    var freePages: nat
    var lastFreeHint: nat
    ghost var used: seq<bool>

    /** The bitmap holds exactly the flags `used`, the hint is a page number, and the
        counter is at least the number of free pages (so that it never underflows). */
    ghost predicate Valid()
      reads this, bitmap
    {
      && Bits()
      && FreeCount(used) <= freePages
    }

    ghost predicate Bits()
      reads this, bitmap
    {
      && bitmap.Length == BITMAP_WORDS
      && |used| == MAX_PAGES
      && lastFreeHint <= MAX_PAGES
      && Mirrored()
    }

    /** Page `p` is bit `p % 64` of word `p / 64`. */
    ghost predicate Mirrored()
      reads this`used, bitmap
      requires bitmap.Length == BITMAP_WORDS && |used| == MAX_PAGES
    {
      forall p :: 0 <= p < MAX_PAGES ==> used[p] == Bit(bitmap[p / 64], p % 64)
    }

    /** By how much the counter exceeds the number of free pages. */
    ghost function Drift(): int
      reads this
    {
      freePages - FreeCount(used)
    }

    /** Every page below the allocation hint is used. */
    ghost predicate HintTight()
      reads this
    {
      AllUsedBelow(used, lastFreeHint)
    }

    // ---- bitmap helpers ----

    method BitmapSet(page: nat)
      requires Bits() && page < MAX_PAGES
      modifies bitmap, this`used
      ensures Bits() && used == old(used)[page := true]
    {
      forall i: nat | i < 64
        ensures Bit(BitOr(bitmap[page / 64], Pow2(page % 64)), i) <==>
                i == page % 64 || Bit(bitmap[page / 64], i)
      {
        OrPow2SetsBit(bitmap[page / 64], page % 64, i);
      }
      bitmap[page / 64] := BitOr(bitmap[page / 64], Pow2(page % 64));
      used := used[page := true];
    }

    method BitmapClear(page: nat)
      requires Bits() && page < MAX_PAGES
      modifies bitmap, this`used
      ensures Bits() && used == old(used)[page := false]
    {
      AndNotPow2ClearsBit(0, page % 64, 0);
      forall i: nat | i < 64
        ensures Bit(BitAnd(bitmap[page / 64], BitNot(Pow2(page % 64))), i) <==>
                i != page % 64 && Bit(bitmap[page / 64], i)
      {
        AndNotPow2ClearsBit(bitmap[page / 64], page % 64, i);
      }
      bitmap[page / 64] := BitAnd(bitmap[page / 64], BitNot(Pow2(page % 64)));
      used := used[page := false];
    }

    method BitmapTest(page: nat) returns (b: bool)
      requires Bits() && page < MAX_PAGES
      ensures b == used[page]
    {
      AndPow2TestsBit(bitmap[page / 64], page % 64);
      b := BitAnd(bitmap[page / 64], Pow2(page % 64)) != 0;
    }

    // ---- initialisation ----

    /** `pmm_init` on zeroed statics; `None` stands for a null multiboot pointer. */
    constructor (mmap: Option<seq<MmapEntry>>)
      ensures Valid() && fresh(bitmap)
      ensures lastFreeHint == 0
      ensures mmap.None? ==> freePages == 0 && totalPages == 0 && forall p :: 0 <= p < MAX_PAGES ==> used[p]
      ensures mmap.Some? ==>
                && totalPages == TotalClaimed(mmap.value)
                && (forall p: nat :: p < MAX_PAGES ==>
                      (used[p] <==> ReservedAtBoot(p) || !Offered(mmap.value, p)))
                && (Drift() == 0 <==> PageDisjoint(mmap.value))
    {
      bitmap := new nat[BITMAP_WORDS];
      totalPages, freePages, lastFreeHint := 0, 0, 0;
      used := seq(MAX_PAGES, _ => true);
      new;
      for w := 0 to BITMAP_WORDS
        invariant forall v :: 0 <= v < w ==> bitmap[v] == WORD_LIMIT - 1
        invariant totalPages == 0 && freePages == 0 && lastFreeHint == 0
        invariant |used| == MAX_PAGES && forall p :: 0 <= p < MAX_PAGES ==> used[p]
      {
        bitmap[w] := WORD_LIMIT - 1;
      }
      forall p | 0 <= p < MAX_PAGES
        ensures Bit(bitmap[p / 64], p % 64)
      {
        AllOnesHasBit(p % 64);
      }
      AllUsedCountsZero(used);
      if mmap.Some? {
        ReadMap(mmap.value);
        ReserveLowMemory();
        MarkUsed(KERNEL_PHYS_BASE, 3 * 1024 * 1024);
      }
    }

    /** The memory-map loop. */
    method ReadMap(mmap: seq<MmapEntry>)
      requires Valid() && freePages == 0 && totalPages == 0 && lastFreeHint == 0
      requires forall p :: 0 <= p < MAX_PAGES ==> used[p]
      modifies this, bitmap
      ensures Valid() && lastFreeHint == 0
      ensures totalPages == TotalClaimed(mmap)
      ensures Matches(used, mmap)
      ensures Drift() == 0 <==> PageDisjoint(mmap)
    {
      hide PhysicalMemory.Mirrored;
      AllUsedCountsZero(used);
      for i := 0 to |mmap|
        invariant Valid() && lastFreeHint == 0
        invariant totalPages == TotalClaimed(mmap[..i])
        invariant Matches(used, mmap[..i])
        invariant Drift() >= 0
        invariant Drift() == 0 <==> PageDisjoint(mmap[..i])
      {
        var e := mmap[i];
        ghost var before := used;
        assert mmap[..i + 1] == mmap[..i] + [e];
        if e.kind == MB2_MMAP_TYPE_AVAILABLE {
          ClearEntry(e);
        } else {
          totalPages := totalPages + PageCount(e);
        }
        MatchesExtends(before, used, mmap[..i], e);
      }
      assert mmap[..|mmap|] == mmap;
    }

    /** The page loop of one available entry: the counter goes up once a page, also for a
        page that was already free. */
    method ClearEntry(e: MmapEntry)
      requires Valid() && e.kind == MB2_MMAP_TYPE_AVAILABLE
      modifies this, bitmap
      ensures Valid() && lastFreeHint == old(lastFreeHint)
      ensures totalPages == old(totalPages) + Claimed(e)
      ensures forall p: nat :: p < MAX_PAGES ==> (used[p] <==> old(used)[p] && !Offers(e, p))
      ensures Drift() >= old(Drift())
      ensures Drift() == old(Drift()) <==> forall p: nat :: Offers(e, p) ==> old(used)[p]
    {
      hide PhysicalMemory.Mirrored;
      var start := FirstPage(e);
      var p := start;
      while p < start + PageCount(e) && p < MAX_PAGES
        invariant start <= p <= start + PageCount(e) && (p <= MAX_PAGES || p == start)
        invariant Valid() && lastFreeHint == old(lastFreeHint)
        invariant totalPages == old(totalPages) + (p - start)
        invariant forall q: nat :: q < MAX_PAGES ==> (used[q] <==> old(used)[q] && !(start <= q < p))
        invariant Drift() >= old(Drift())
        invariant Drift() == old(Drift()) <==> forall q: nat :: start <= q < p ==> old(used)[q]
      {
        FreeCountUpdate(used, p, false);
        BitmapClear(p);
        freePages := freePages + 1;
        totalPages := totalPages + 1;
        p := p + 1;
      }
    }

    method ReserveLowMemory()
      requires Valid()
      modifies this, bitmap
      ensures Valid() && used == Filled(old(used), 0, 256, true)
      ensures Drift() == old(Drift())
      ensures totalPages == old(totalPages) && lastFreeHint == old(lastFreeHint)
    {
      hide PhysicalMemory.Mirrored;
      FillNone(used, 0, true);
      for p := 0 to 256
        invariant Valid() && used == Filled(old(used), 0, p, true)
        invariant Drift() == old(Drift())
        invariant totalPages == old(totalPages) && lastFreeHint == old(lastFreeHint)
      {
        FillOne(old(used), 0, p, true);
        var b := BitmapTest(p);
        if !b {
          FreeCountUpdate(used, p, true);
          BitmapSet(p);
          freePages := freePages - 1;
        } else {
          FillKeep(old(used), 0, p, true);
        }
      }
    }

    // ---- allocation ----

    /** `pmm_alloc_page`: the first free page at or above the hint, or else the first one
        below it; the panic means that no page is free. */
    method AllocPage() returns (r: Outcome<nat>)
      requires Valid()
      modifies this, bitmap
      ensures Valid() && Drift() == old(Drift()) && totalPages == old(totalPages)
      ensures r.Panicked? <==> forall i :: 0 <= i < MAX_PAGES ==> old(used)[i]
      ensures r.Panicked? ==> unchanged(this, bitmap)
      ensures r.Returned? ==>
                && r.value % PAGE_SIZE == 0
                && var i := r.value / PAGE_SIZE;
                && IsNextFit(old(used), old(lastFreeHint), i)
                && used == old(used)[i := true]
                && lastFreeHint == i + 1
                && (HintTight() <==> AllUsedBelow(old(used), i))
    {
      hide PhysicalMemory.Mirrored;
      var i := lastFreeHint;
      while i < MAX_PAGES
        invariant unchanged(this, bitmap) && Valid()
        invariant lastFreeHint <= i <= MAX_PAGES
        invariant forall j :: lastFreeHint <= j < i ==> used[j]
      {
        var b := BitmapTest(i);
        if !b {
          r := Take(i);
          return;
        }
        i := i + 1;
      }
      i := 0;
      while i < lastFreeHint
        invariant unchanged(this, bitmap) && Valid()
        invariant 0 <= i <= lastFreeHint
        invariant forall j :: 0 <= j < i ==> used[j]
      {
        var b := BitmapTest(i);
        if !b {
          r := Take(i);
          return;
        }
        i := i + 1;
      }
      r := Panicked;
    }

    /** The common tail of both search loops. */
    method Take(i: nat) returns (r: Outcome<nat>)
      requires Valid() && i < MAX_PAGES && !used[i]
      modifies this, bitmap
      ensures Valid() && Drift() == old(Drift()) && totalPages == old(totalPages)
      ensures used == old(used)[i := true] && lastFreeHint == i + 1
      ensures HintTight() <==> AllUsedBelow(old(used), i)
      ensures r == Returned(i * PAGE_SIZE)
    {
      hide PhysicalMemory.Mirrored;
      UsedBelowTaken(used, i);
      FreeCountUpdate(used, i, true);
      BitmapSet(i);
      freePages := freePages - 1;
      lastFreeHint := i + 1;
      r := Returned(i * PAGE_SIZE);
    }

    /** `pmm_alloc_pages`: a run of `count` free pages, the lowest one when `count > 1` or
        the hint is tight; the panic means that there is no such run. */
    method AllocPages(count: nat) returns (r: Outcome<nat>)
      requires Valid()
      modifies this, bitmap
      ensures Valid() && Drift() == old(Drift()) && totalPages == old(totalPages)
      ensures count == 0 ==> r == Returned(0) && used == old(used)
      ensures count != 1 ==> lastFreeHint == old(lastFreeHint)
      ensures count != 0 ==> (r.Panicked? <==> !HasRun(old(used), count))
      ensures r.Panicked? ==> used == old(used)
      ensures count != 0 && r.Returned? ==>
                && r.value % PAGE_SIZE == 0
                && var s := r.value / PAGE_SIZE;
                && IsRun(old(used), s, count)
                && used == Filled(old(used), s, s + count, true)
                && freePages == old(freePages) - count
                && (count > 1 || old(HintTight()) ==> IsLowestRun(old(used), s, count))
      ensures old(HintTight()) ==> HintTight()
    {
      hide PhysicalMemory.Mirrored;
      if count == 0 {
        return Returned(0);
      }
      if count == 1 {
        r := AllocPage();
        if r.Returned? {
          var s := r.value / PAGE_SIZE;
          assert IsRun(old(used), s, 1);
          RunCount(old(used), s, 1);
          assert used == Filled(old(used), s, s + 1, true);
          NextFitIsLowest(old(used), old(lastFreeHint), s);
        } else {
          forall t: nat ensures !IsRun(old(used), t, 1) {
            assert t < MAX_PAGES ==> old(used)[t];
          }
        }
        return;
      }
      r := ScanForRun(count);
    }

    /** The scan of `pmm_alloc_pages` for more than one page. */
    method ScanForRun(count: nat) returns (r: Outcome<nat>)
      requires Valid() && count > 1
      modifies bitmap, this`used, this`freePages
      ensures Valid() && Drift() == old(Drift())
      ensures r.Panicked? ==> !HasRun(old(used), count) && used == old(used)
      ensures r.Returned? ==>
                && r.value % PAGE_SIZE == 0
                && var s := r.value / PAGE_SIZE;
                && IsLowestRun(old(used), s, count)
                && used == Filled(old(used), s, s + count, true)
                && freePages == old(freePages) - count
      ensures old(HintTight()) ==> HintTight()
    {
      hide PhysicalMemory.Mirrored;
      var start, run := 0, 0;
      var i := 0;
      while i < MAX_PAGES
        invariant unchanged(this, bitmap) && Valid()
        invariant run <= i <= MAX_PAGES && run < count
        invariant run > 0 ==> start + run == i
        invariant IsRun(used, i - run, run)
        invariant forall t: nat :: t < i - run ==> !IsRun(used, t, count)
      {
        var b := BitmapTest(i);
        if !b {
          if run == 0 {
            start := i;
          }
          run := run + 1;
          if run == count {
            assert IsLowestRun(used, start, count);
            UsedBelowFilled(used, start, start + count, lastFreeHint);
            TakeRun(start, count);
            return Returned(start * PAGE_SIZE);
          }
        } else {
          forall t: nat | t <= i
            ensures !IsRun(used, t, count)
          {
            if i - run <= t {
              assert used[i];
            }
          }
          run := 0;
        }
        i := i + 1;
      }
      forall t: nat ensures !IsRun(used, t, count) {
      }
      r := Panicked;
    }

    /** The marking loop of `pmm_alloc_pages`. */
    method TakeRun(start: nat, count: nat)
      requires Valid() && IsRun(used, start, count)
      modifies bitmap, this`used, this`freePages
      ensures Valid() && Drift() == old(Drift())
      ensures used == Filled(old(used), start, start + count, true)
      ensures freePages == old(freePages) - count
    {
      hide PhysicalMemory.Mirrored;
      FillNone(used, start, true);
      RunCount(used, start, count);
      for j := start to start + count
        invariant Valid()
        invariant used == Filled(old(used), start, j, true)
        invariant freePages == old(freePages) - (j - start)
        invariant Drift() == old(Drift())
      {
        FillOne(old(used), start, j, true);
        FreeCountUpdate(used, j, true);
        BitmapSet(j);
        freePages := freePages - 1;
      }
    }

    // ---- release ----

    /** `pmm_free_page`: out-of-range and double frees are ignored. */
    method FreePage(phys: nat)
      requires Valid()
      modifies this, bitmap
      ensures Valid() && Drift() == old(Drift()) && totalPages == old(totalPages)
      ensures used == Filled(old(used), phys / PAGE_SIZE, phys / PAGE_SIZE + 1, false)
      ensures lastFreeHint ==
              var page := phys / PAGE_SIZE;
              if page < old(lastFreeHint) && old(used)[page] then page else old(lastFreeHint)
      ensures old(HintTight()) ==> HintTight()
    {
      hide PhysicalMemory.Mirrored;
      var page := phys / PAGE_SIZE;
      if page >= MAX_PAGES {
        return;
      }
      var b := BitmapTest(page);
      if !b {
        return;
      }
      FreeCountUpdate(used, page, false);
      BitmapClear(page);
      freePages := freePages + 1;
      if page < lastFreeHint {
        lastFreeHint := page;
      }
    }

    method FreePages(phys: nat, count: nat)
      requires Valid() && phys + count * PAGE_SIZE <= WORD_LIMIT
      modifies this, bitmap
      ensures Valid() && Drift() == old(Drift()) && totalPages == old(totalPages)
      ensures used == Filled(old(used), phys / PAGE_SIZE, phys / PAGE_SIZE + count, false)
      ensures old(HintTight()) ==> HintTight()
    {
      hide PhysicalMemory.Mirrored;
      var page := phys / PAGE_SIZE;
      FillNone(used, page, false);
      for i := 0 to count
        invariant Valid() && Drift() == old(Drift()) && totalPages == old(totalPages)
        invariant used == Filled(old(used), page, page + i, false)
        invariant old(HintTight()) ==> HintTight()
      {
        assert (phys + i * PAGE_SIZE) / PAGE_SIZE == page + i;
        FreePage(phys + i * PAGE_SIZE);
      }
    }

    // ---- marking ----

    method MarkUsed(phys: nat, size: nat)
      requires Valid() && size + PAGE_SIZE <= WORD_LIMIT
      modifies this, bitmap
      ensures Valid() && Drift() == old(Drift()) && totalPages == old(totalPages)
      ensures lastFreeHint == old(lastFreeHint)
      ensures used == Filled(old(used), phys / PAGE_SIZE,
                             phys / PAGE_SIZE + AlignUp(size, PAGE_SIZE) / PAGE_SIZE, true)
      ensures old(HintTight()) ==> HintTight()
    {
      hide PhysicalMemory.Mirrored;
      var start := phys / PAGE_SIZE;
      var count := AlignUp(size, PAGE_SIZE) / PAGE_SIZE;
      FillNone(used, start, true);
      UsedBelowFilled(used, start, start + count, lastFreeHint);
      var i := start;
      while i < start + count && i < MAX_PAGES
        invariant start <= i <= start + count
        invariant Valid() && Drift() == old(Drift()) && totalPages == old(totalPages)
        invariant lastFreeHint == old(lastFreeHint)
        invariant used == Filled(old(used), start, i, true)
      {
        FillOne(old(used), start, i, true);
        var b := BitmapTest(i);
        if !b {
          FreeCountPositive(used);
          FreeCountUpdate(used, i, true);
          BitmapSet(i);
          if freePages > 0 {
            freePages := freePages - 1;
          }
        } else {
          FillKeep(old(used), start, i, true);
        }
        i := i + 1;
      }
      FilledPastEnd(old(used), start, i, start + count, true);
    }

    /** `pmm_mark_free` does not touch the hint, so the hint stays tight exactly when no
        page below it was released. */
    method MarkFree(phys: nat, size: nat)
      requires Valid()
      modifies this, bitmap
      ensures Valid() && Drift() == old(Drift()) && totalPages == old(totalPages)
      ensures lastFreeHint == old(lastFreeHint)
      ensures used == Filled(old(used), phys / PAGE_SIZE, phys / PAGE_SIZE + size / PAGE_SIZE, false)
      ensures HintTight() <==>
              old(HintTight()) && (size < PAGE_SIZE || lastFreeHint <= phys / PAGE_SIZE)
    {
      hide PhysicalMemory.Mirrored;
      var start := phys / PAGE_SIZE;
      var count := size / PAGE_SIZE;
      FillNone(used, start, false);
      var i := start;
      while i < start + count && i < MAX_PAGES
        invariant start <= i <= start + count
        invariant Valid() && Drift() == old(Drift()) && totalPages == old(totalPages)
        invariant lastFreeHint == old(lastFreeHint)
        invariant used == Filled(old(used), start, i, false)
      {
        FillOne(old(used), start, i, false);
        var b := BitmapTest(i);
        if b {
          FreeCountUpdate(used, i, false);
          BitmapClear(i);
          freePages := freePages + 1;
        } else {
          FillKeep(old(used), start, i, false);
        }
        i := i + 1;
      }
      FilledPastEnd(old(used), start, i, start + count, false);
      UsedBelowFilled(old(used), start, start + count, lastFreeHint);
    }
  }
}
