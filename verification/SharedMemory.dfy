/** The shared memory regions of kernel/ipc/ipc.c, backed by runs of physical pages. */
module SharedMemory {
  import opened Wrappers
  import opened Words
  import opened FrameBits
  import opened Pmm
  import Ownership

  const SHM_MAX_SEGS: nat := 64
  const SHM_MAX_SIZE: nat := 1024 * 1024

  /** A region record; a zero `physBase` marks a destroyed or unused slot. */
  datatype ShmRegion = ShmRegion(id: nat, size: nat, physBase: nat)

  /** The pages of a live region. */
  function Pages(r: ShmRegion): Ownership.Region {
    Ownership.Region(r.physBase / PAGE_SIZE, r.size / PAGE_SIZE)
  }

  predicate Live(r: ShmRegion) {
    r.physBase != 0
  }

  /** Live regions are made of used pages and do not overlap. */
  ghost predicate Sound(regions: seq<ShmRegion>, used: seq<bool>) {
    && (forall i :: 0 <= i < |regions| && Live(regions[i]) ==>
          && regions[i].physBase % PAGE_SIZE == 0 && regions[i].size % PAGE_SIZE == 0
          && 0 < Pages(regions[i]).count
          && Pages(regions[i]).start + Pages(regions[i]).count <= |used|)
    && (forall i, p: nat {:trigger Ownership.Holds(Pages(regions[i]), p)} ::
          0 <= i < |regions| && Live(regions[i]) && Ownership.Holds(Pages(regions[i]), p) && p < |used| ==> used[p])
    && (forall i, j, p: nat
          {:trigger Ownership.Holds(Pages(regions[i]), p), Ownership.Holds(Pages(regions[j]), p)} ::
          0 <= i < j < |regions| && Live(regions[i]) && Live(regions[j]) && Ownership.Holds(Pages(regions[i]), p) ==>
            !Ownership.Holds(Pages(regions[j]), p))
  }

  lemma AddKeepsSound(regions: seq<ShmRegion>, used: seq<bool>, i: nat, r: ShmRegion)
    requires Sound(regions, used) && i < |regions| && !Live(regions[i])
    requires r.physBase % PAGE_SIZE == 0 && r.size % PAGE_SIZE == 0 && 0 < Pages(r).count
    requires IsRun(used, Pages(r).start, Pages(r).count)
    ensures Sound(regions[i := r], Filled(used, Pages(r).start, Pages(r).start + Pages(r).count, true))
  {
    var after := regions[i := r];
    assert forall j {:trigger after[j]} :: 0 <= j < |after| && j != i ==> after[j] == regions[j];
    forall j, p: nat | 0 <= j < |after| && j != i && Live(after[j]) && Ownership.Holds(Pages(after[j]), p)
      ensures !Ownership.Holds(Pages(r), p)
    {
      assert Ownership.Holds(Pages(regions[j]), p);
      assert p < |used| && used[p];
    }
    assert after[i] == r;
  }

  lemma DropKeepsSound(regions: seq<ShmRegion>, used: seq<bool>, i: nat)
    requires Sound(regions, used) && i < |regions| && Live(regions[i])
    ensures var p := Pages(regions[i]);
            Sound(regions[i := regions[i].(physBase := 0)], Filled(used, p.start, p.start + p.count, false))
  {
    var after := regions[i := regions[i].(physBase := 0)];
    assert forall j {:trigger after[j]} :: 0 <= j < |after| && j != i ==> after[j] == regions[j];
    var released := Filled(used, Pages(regions[i]).start, Pages(regions[i]).start + Pages(regions[i]).count, false);
    forall j, p: nat {:trigger Ownership.Holds(Pages(after[j]), p)} |
      0 <= j < |after| && Live(after[j]) && Ownership.Holds(Pages(after[j]), p) && p < |released|
      ensures released[p]
    {
      assert Ownership.Holds(Pages(regions[j]), p) && used[p];
      assert !Ownership.Holds(Pages(regions[i]), p);
    }
    forall j, k, p: nat {:trigger Ownership.Holds(Pages(after[j]), p), Ownership.Holds(Pages(after[k]), p)} |
      0 <= j < k < |after| && Live(after[j]) && Live(after[k]) && Ownership.Holds(Pages(after[j]), p)
      ensures !Ownership.Holds(Pages(after[k]), p)
    {
      assert Ownership.Holds(Pages(regions[j]), p);
      assert !Ownership.Holds(Pages(regions[k]), p);
    }
  }

  /** Bytes that a request for `size` bytes takes, on 64 bits. */
  function Rounded(size: nat): nat {
    AlignUp(size, PAGE_SIZE) % WORD_LIMIT
  }

  lemma RoundedIsPages(size: nat)
    ensures Rounded(size) == Rounded(size) / PAGE_SIZE * PAGE_SIZE && Rounded(size) < WORD_LIMIT
  {
    var n := (size + PAGE_SIZE - 1) / PAGE_SIZE;
    var h := n * PAGE_SIZE / WORD_LIMIT;
    assert n * PAGE_SIZE == h * WORD_LIMIT + Rounded(size);
    assert Rounded(size) == (n - h * 0x10_0000_0000_0000) * PAGE_SIZE;
  }

  /** Below 2^64 - 4095 that is the size rounded up to whole pages; above, the sum wraps to 0. */
  lemma RoundedIsTight(size: nat)
    requires size < WORD_LIMIT
    ensures size + 4095 < WORD_LIMIT ==> size <= Rounded(size) < size + 4096 && Rounded(size) % 4096 == 0
    ensures size + 4095 >= WORD_LIMIT ==> Rounded(size) == 0
  {
    var n := (size + 4095) / 4096;
    PagesOf(size + 4095);
    assert AlignUp(size, PAGE_SIZE) == n * 4096;
    hide AlignUp;
    if size + 4095 < WORD_LIMIT {
      QuotientIsUnique(n * 4096, WORD_LIMIT, 0, n * 4096);
    } else {
      QuotientIsUnique(size + 4095, 4096, 0x10_0000_0000_0000, size + 4095 - WORD_LIMIT);
      QuotientIsUnique(n * 4096, WORD_LIMIT, 1, 0);
    }
  }

  lemma PagesOf(x: nat)
    ensures x / 4096 * 4096 <= x < x / 4096 * 4096 + 4096 && x / 4096 * 4096 % 4096 == 0
  {
    QuotientIsUnique(x / 4096 * 4096, 4096, x / 4096, 0);
  }

  /** The sizes that are refused: 0, and everything above 1 MiB. */
  lemma RefusedSizes(size: nat)
    requires size < WORD_LIMIT
    ensures Rounded(size) > SHM_MAX_SIZE || Rounded(size) == 0 <==> size == 0 || size > 0x10_0000
  {
    RoundedIsTight(size);
    hide Rounded;
    if size + 4095 < WORD_LIMIT && 0 < size <= 0x10_0000 {
      var q := Rounded(size) / 4096;
      assert Rounded(size) == q * 4096;
    }
  }

  class Segments {
    const pmm: PhysicalMemory
    const regions: array<ShmRegion>
    var nextShmid: nat

    constructor (pmm: PhysicalMemory)
      requires pmm.Valid() && pmm.used[0]
      ensures Valid() && this.pmm == pmm && fresh(regions) && nextShmid == 0
    {
      this.pmm := pmm;
      regions := new ShmRegion[SHM_MAX_SEGS](_ => ShmRegion(0, 0, 0));
      nextShmid := 0;
    }

    /** Page 0 is reserved at boot, so a zero address never denotes an allocation. */
    ghost predicate Valid()
      reads this, regions, pmm, pmm.bitmap
    {
      && pmm.Valid() && pmm.used[0]
      && regions.Length == SHM_MAX_SEGS && nextShmid <= SHM_MAX_SEGS
      && (forall i :: nextShmid <= i < SHM_MAX_SEGS ==> !Live(regions[i]))
      && Sound(regions[..], pmm.used)
    }

    /** `shm_create`: refuses when the table is full or the size is zero or above 1 MiB, and
        otherwise records a run of pages that nobody else holds. */
    method Create(size: nat) returns (r: Outcome<int>)
      requires Valid() && size < WORD_LIMIT
      modifies this, regions, pmm, pmm.bitmap
      ensures Valid() && pmm.Drift() == old(pmm.Drift())
      ensures var refused := old(nextShmid) >= SHM_MAX_SEGS || Rounded(size) > SHM_MAX_SIZE || Rounded(size) == 0;
              && (refused ==> r == Returned(-1))
              && (!refused ==>
                    && (r.Panicked? <==> !HasRun(old(pmm.used), Rounded(size) / PAGE_SIZE))
                    && (r.Returned? ==> r.value == old(nextShmid)))
      ensures r.Returned? && r.value >= 0 ==>
                var p := Pages(regions[r.value]);
                && nextShmid == old(nextShmid) + 1
                && Live(regions[r.value]) && regions[r.value].size == Rounded(size)
                && regions[r.value].physBase % PAGE_SIZE == 0
                && IsRun(old(pmm.used), p.start, p.count)
                && pmm.used == Filled(old(pmm.used), p.start, p.start + p.count, true)
                && regions[..] == old(regions[..])[r.value := regions[r.value]]
      ensures r.Panicked? || r.value < 0 ==>
                regions[..] == old(regions[..]) && pmm.used == old(pmm.used) && nextShmid == old(nextShmid)
      ensures old(pmm.HintTight()) ==> pmm.HintTight()
    {
      hide PhysicalMemory.Mirrored, FreeCount, Sound, AllUsedBelow;
      if nextShmid >= SHM_MAX_SEGS {
        return Returned(-1);
      }
      var bytes := AlignUp(size, PAGE_SIZE) % WORD_LIMIT;
      RoundedIsPages(size);
      hide AlignUp;
      if bytes > SHM_MAX_SIZE {
        return Returned(-1);
      }
      var phys := pmm.AllocPages(bytes / PAGE_SIZE);
      assert regions[..] == old(regions[..]);
      if phys.Panicked? {
        return Panicked;
      }
      if phys.value == 0 {
        return Returned(-1);
      }
      ghost var region := ShmRegion(nextShmid, bytes, phys.value);
      AddKeepsSound(regions[..], old(pmm.used), nextShmid, region);
      regions[nextShmid] := ShmRegion(nextShmid, bytes, phys.value);
      assert regions[..] == old(regions[..])[nextShmid := region];
      nextShmid := nextShmid + 1;
      r := Returned(nextShmid - 1);
    }

    /** `shm_destroy` gives the pages of a live region back, once. */
    method Destroy(shmid: int)
      requires Valid()
      modifies regions, pmm, pmm.bitmap
      ensures Valid() && pmm.Drift() == old(pmm.Drift())
      ensures var live := 0 <= shmid < SHM_MAX_SEGS && Live(old(regions[..])[shmid]);
              && (live ==>
                    var p := Pages(old(regions[..])[shmid]);
                    && pmm.used == Filled(old(pmm.used), p.start, p.start + p.count, false)
                    && regions[..] == old(regions[..])[shmid := old(regions[..])[shmid].(physBase := 0)])
              && (!live ==> pmm.used == old(pmm.used) && regions[..] == old(regions[..]))
      ensures old(pmm.HintTight()) ==> pmm.HintTight()
    {
      hide PhysicalMemory.Mirrored, FreeCount;
      if shmid < 0 || shmid >= SHM_MAX_SEGS {
        return;
      }
      if regions[shmid].physBase != 0 {
        DropKeepsSound(regions[..], pmm.used, shmid);
        assert regions[..][shmid] == regions[shmid];
        pmm.FreePages(regions[shmid].physBase, regions[shmid].size / PAGE_SIZE);
        assert regions[..] == old(regions[..]);
        regions[shmid] := regions[shmid].(physBase := 0);
        assert regions[..] == old(regions[..])[shmid := old(regions[..])[shmid].(physBase := 0)];
      }
    }

    /** Creating a region and destroying it restores the bitmap and the free count. */
    method CreateThenDestroy(size: nat) returns (r: Outcome<int>)
      requires Valid() && size < WORD_LIMIT
      modifies this, regions, pmm, pmm.bitmap
      ensures Valid() && pmm.used == old(pmm.used) && pmm.freePages == old(pmm.freePages)
    {
      hide PhysicalMemory.Mirrored, FreeCount, Sound;
      r := Create(size);
      if r.Returned? && r.value >= 0 {
        ghost var p := Pages(regions[r.value]);
        FillBack(old(pmm.used), p.start, p.count);
        assert regions[..][r.value] == regions[r.value];
        Destroy(r.value);
      }
    }
  }
}
