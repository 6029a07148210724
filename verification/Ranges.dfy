/** Ranges of virtual pages, and how many page tables mapping a range creates. */
module Ranges {
  import opened Wrappers
  import opened Paging
  import opened PageTables

  /** How far page `q` lies above page `first`, going round the 48-bit address space. */
  function Distance(first: nat, q: nat): (d: nat)
    requires first < VIRTUAL_PAGES && q < VIRTUAL_PAGES
    ensures d < VIRTUAL_PAGES
  {
    if first <= q then q - first else q + VIRTUAL_PAGES - first
  }

  /** The page `d` places above page `first`. */
  function Nth(first: nat, d: nat): (q: nat)
    requires first < VIRTUAL_PAGES && d < VIRTUAL_PAGES
    ensures q < VIRTUAL_PAGES && Distance(first, q) == d
  {
    if first + d < VIRTUAL_PAGES then first + d else first + d - VIRTUAL_PAGES
  }

  lemma NthIsUnique(first: nat, q: nat)
    requires first < VIRTUAL_PAGES && q < VIRTUAL_PAGES
    ensures Nth(first, Distance(first, q)) == q
  {
  }

  /** Some page of the range uses the level-`level` table of page `q`. */
  ghost predicate Covered(first: nat, n: nat, q: nat, level: nat)
    requires first < VIRTUAL_PAGES
  {
    exists p: nat :: p < VIRTUAL_PAGES && Distance(first, p) < n && Upper(p, level) == Upper(q, level)
  }

  /** The tables on the paths of the range exist, and besides those only the tables there
      were. */
  ghost predicate RangeGrown(m0: Memory, m1: Memory, root: nat, first: nat, n: nat)
    requires first < VIRTUAL_PAGES
  {
    forall q: nat, l: nat {:trigger TableAt(m1, root, q, l)} :: q < VIRTUAL_PAGES && 1 <= l <= 3 ==>
      (TableAt(m1, root, q, l).Some? <==> TableAt(m0, root, q, l).Some? || Covered(first, n, q, l))
  }

  /** 1 when the level-`level` table of the page at place `d` is missing and no earlier page of
      the range needs it too, else 0. */
  ghost function FirstNeed(mem: Memory, root: nat, first: nat, d: nat, level: nat): nat
    requires first < VIRTUAL_PAGES && d < VIRTUAL_PAGES && 1 <= level <= 3
  {
    var q := Nth(first, d);
    if TableAt(mem, root, q, level).None? && !Covered(first, d, q, level) then 1 else 0
  }

  ghost function NeedAt(mem: Memory, root: nat, first: nat, d: nat): nat
    requires first < VIRTUAL_PAGES && d < VIRTUAL_PAGES
  {
    FirstNeed(mem, root, first, d, 3) + FirstNeed(mem, root, first, d, 2) + FirstNeed(mem, root, first, d, 1)
  }

  /** The number of different tables that are missing on the paths of `n` pages. */
  ghost function RangeMissing(mem: Memory, root: nat, first: nat, n: nat): nat
    requires first < VIRTUAL_PAGES && n <= VIRTUAL_PAGES
  {
    if n == 0 then 0
    else
      RangeMissing(mem, root, first, n - 1) + NeedAt(mem, root, first, n - 1)
  }

  lemma NothingGrown(mem: Memory, root: nat, first: nat)
    requires first < VIRTUAL_PAGES
    ensures RangeGrown(mem, mem, root, first, 0)
  {
    hide TableAt, Distance;
  }

  /** What is missing on the next path is what the next page is the first to need. */
  lemma MissingNext(m0: Memory, m1: Memory, root: nat, first: nat, k: nat, page: nat)
    requires first < VIRTUAL_PAGES && page < VIRTUAL_PAGES && Distance(first, page) == k
    requires RangeGrown(m0, m1, root, first, k)
    ensures RangeMissing(m0, root, first, k + 1) == RangeMissing(m0, root, first, k) + MissingTables(m1, root, page)
  {
    hide TableAt, Covered, Nth, MissingTables;
    NthIsUnique(first, page);
    MissingOneByOne(m1, root, page);
  }

  /** Mapping one more page extends the tables to those of the longer range. */
  lemma GrownNext(m0: Memory, m1: Memory, m2: Memory, root: nat, first: nat, k: nat, page: nat)
    requires first < VIRTUAL_PAGES && page < VIRTUAL_PAGES && Distance(first, page) == k
    requires RangeGrown(m0, m1, root, first, k) && PathGrown(m1, m2, root, page)
    ensures RangeGrown(m0, m2, root, first, k + 1)
  {
    hide TableAt, Upper;
    forall q: nat, l: nat {:trigger TableAt(m2, root, q, l)} | q < VIRTUAL_PAGES && 1 <= l <= 3
      ensures TableAt(m2, root, q, l).Some? <==> TableAt(m0, root, q, l).Some? || Covered(first, k + 1, q, l)
    {
      assert TableAt(m1, root, q, l).Some? <==> TableAt(m0, root, q, l).Some? || Covered(first, k, q, l);
      CoveredNext(first, k, page, q, l);
    }
  }

  lemma CoveredNext(first: nat, k: nat, page: nat, q: nat, level: nat)
    requires first < VIRTUAL_PAGES && page < VIRTUAL_PAGES && Distance(first, page) == k
    ensures Covered(first, k + 1, q, level) <==> Covered(first, k, q, level) || Upper(q, level) == Upper(page, level)
  {
    hide Upper;
    if Covered(first, k + 1, q, level) {
      var p: nat :| p < VIRTUAL_PAGES && Distance(first, p) < k + 1 && Upper(p, level) == Upper(q, level);
      if Distance(first, p) == k {
        NthIsUnique(first, p);
        NthIsUnique(first, page);
      }
    }
  }

  lemma {:induction false} MissingGrows(mem: Memory, root: nat, first: nat, n: nat, more: nat)
    requires first < VIRTUAL_PAGES && n <= more <= VIRTUAL_PAGES
    ensures RangeMissing(mem, root, first, n) <= RangeMissing(mem, root, first, more)
    decreases more
  {
    hide NeedAt;
    if n < more {
      MissingGrows(mem, root, first, n, more - 1);
    }
  }

  // ---- one range after another ----

  /** A range that does not wrap is covered by its two parts. */
  lemma CoveredInParts(first: nat, a: nat, b: nat, q: nat, level: nat)
    requires first + a + b < VIRTUAL_PAGES
    ensures Covered(first, a + b, q, level) <==> Covered(first, a, q, level) || Covered(first + a, b, q, level)
  {
    hide Upper;
    if Covered(first, a + b, q, level) {
      var p: nat :| p < VIRTUAL_PAGES && Distance(first, p) < a + b && Upper(p, level) == Upper(q, level);
      assert Distance(first, p) < a || Distance(first + a, p) < b;
    }
    if Covered(first + a, b, q, level) {
      var p: nat :| p < VIRTUAL_PAGES && Distance(first + a, p) < b && Upper(p, level) == Upper(q, level);
      assert Distance(first, p) < a + b;
    }
    if Covered(first, a, q, level) {
      var p: nat :| p < VIRTUAL_PAGES && Distance(first, p) < a && Upper(p, level) == Upper(q, level);
      assert Distance(first, p) < a + b;
    }
  }

  lemma GrownInParts(m0: Memory, m1: Memory, m2: Memory, root: nat, first: nat, a: nat, b: nat)
    requires first + a + b < VIRTUAL_PAGES
    requires RangeGrown(m0, m1, root, first, a) && RangeGrown(m1, m2, root, first + a, b)
    ensures RangeGrown(m0, m2, root, first, a + b)
  {
    hide TableAt, Covered;
    forall q: nat, l: nat {:trigger TableAt(m2, root, q, l)} | q < VIRTUAL_PAGES && 1 <= l <= 3
      ensures TableAt(m2, root, q, l).Some? <==> TableAt(m0, root, q, l).Some? || Covered(first, a + b, q, l)
    {
      assert TableAt(m1, root, q, l).Some? <==> TableAt(m0, root, q, l).Some? || Covered(first, a, q, l);
      CoveredInParts(first, a, b, q, l);
    }
  }

  /** The tables missing for a range are those missing for its first part and, once that is
      mapped, for its second part. */
  lemma {:induction false} MissingInParts(m0: Memory, m1: Memory, root: nat, first: nat, a: nat, b: nat)
    requires first + a + b < VIRTUAL_PAGES && RangeGrown(m0, m1, root, first, a)
    ensures RangeMissing(m0, root, first, a + b) ==
            RangeMissing(m0, root, first, a) + RangeMissing(m1, root, first + a, b)
  {
    hide NeedAt, RangeGrown;
    if b > 0 {
      MissingInParts(m0, m1, root, first, a, b - 1);
      AllNeedsInParts(m0, m1, root, first, a, b - 1);
    }
  }

  lemma AllNeedsInParts(m0: Memory, m1: Memory, root: nat, first: nat, a: nat, d: nat)
    requires first + a + d < VIRTUAL_PAGES && RangeGrown(m0, m1, root, first, a)
    ensures NeedAt(m1, root, first + a, d) == NeedAt(m0, root, first, a + d)
  {
    hide FirstNeed, RangeGrown;
    NeedInParts(m0, m1, root, first, a, d, 3);
    NeedInParts(m0, m1, root, first, a, d, 2);
    NeedInParts(m0, m1, root, first, a, d, 1);
  }

  lemma NeedInParts(m0: Memory, m1: Memory, root: nat, first: nat, a: nat, d: nat, level: nat)
    requires first + a + d < VIRTUAL_PAGES && RangeGrown(m0, m1, root, first, a) && 1 <= level <= 3
    ensures FirstNeed(m1, root, first + a, d, level) == FirstNeed(m0, root, first, a + d, level)
  {
    hide TableAt, Covered;
    CoveredInParts(first, a, d, first + a + d, level);
    assert TableAt(m1, root, first + a + d, level).Some? <==>
           TableAt(m0, root, first + a + d, level).Some? || Covered(first, a, first + a + d, level);
  }
}
