/** Who holds which physical page, over any run of allocations and releases. */
module Ownership {
  import opened Wrappers
  import opened Words
  import opened FrameBits
  import opened Pmm

  /** `count` pages from page `start` on, as one allocation returned them. */
  datatype Region = Region(start: nat, count: nat)

  predicate Holds(r: Region, p: nat) {
    r.start <= p < r.start + r.count
  }

  predicate Held(live: seq<Region>, p: nat) {
    exists i :: 0 <= i < |live| && Holds(live[i], p)
  }

  ghost predicate PairwiseDisjoint(live: seq<Region>) {
    forall i, j, p: nat :: 0 <= i < j < |live| && Holds(live[i], p) ==> !Holds(live[j], p)
  }

  /** The used pages are the reserved ones and the ones in live regions, and no page is both
      or in two regions. */
  ghost predicate Accounted(used: seq<bool>, reserved: set<nat>, live: seq<Region>) {
    && |used| == MAX_PAGES
    && (forall p: nat :: p < MAX_PAGES ==> (used[p] <==> p in reserved || Held(live, p)))
    && (forall i, p: nat {:trigger Holds(live[i], p)} ::
          0 <= i < |live| && Holds(live[i], p) ==> p < MAX_PAGES && p !in reserved)
    && PairwiseDisjoint(live)
  }

  // ---- the entries of a list of regions ----

  /** Region `i` is replaced by `r`. */
  lemma HeldAfterUpdate(all: seq<Region>, i: nat, r: Region, p: nat)
    requires i < |all|
    ensures Held(all[i := r], p) <==> Holds(r, p) || exists j :: 0 <= j < |all| && j != i && Holds(all[j], p)
  {
    var after := all[i := r];
    if j :| 0 <= j < |after| && Holds(after[j], p) {
      assert j != i ==> Holds(all[j], p);
    }
    if Holds(r, p) {
      assert Holds(after[i], p);
    }
    if j :| 0 <= j < |all| && j != i && Holds(all[j], p) {
      assert Holds(after[j], p);
    }
  }

  lemma HeldByOthers(all: seq<Region>, i: nat, p: nat)
    requires i < |all|
    ensures Held(all, p) <==> Holds(all[i], p) || exists j :: 0 <= j < |all| && j != i && Holds(all[j], p)
  {
    assert all[i := all[i]] == all;
    HeldAfterUpdate(all, i, all[i], p);
  }

  /** A freshly allocated run put in an empty place belongs to nobody else. */
  lemma TakeAt(used: seq<bool>, reserved: set<nat>, all: seq<Region>, i: nat, s: nat, n: nat)
    requires Accounted(used, reserved, all) && i < |all| && all[i].count == 0 && IsRun(used, s, n)
    ensures Accounted(Filled(used, s, s + n, true), reserved, all[i := Region(s, n)])
  {
    var r, after, taken := Region(s, n), all[i := Region(s, n)], Filled(used, s, s + n, true);
    forall p: nat | p < MAX_PAGES
      ensures taken[p] <==> p in reserved || Held(after, p)
    {
      HeldAfterUpdate(all, i, r, p);
      HeldByOthers(all, i, p);
    }
    forall j, p: nat {:trigger Holds(after[j], p)} | 0 <= j < |after| && Holds(after[j], p)
      ensures p < MAX_PAGES && p !in reserved
      ensures j != i ==> !Holds(r, p)
    {
      if j != i {
        assert Holds(all[j], p);
        assert Held(all, p) && used[p];
      } else {
        assert !used[p];
      }
    }
    hide Accounted, Held, Filled, IsRun;
    UpdateKeepsApart(all, i, r);
  }

  lemma Apart(all: seq<Region>, i: nat, j: nat, p: nat)
    requires PairwiseDisjoint(all) && i < |all| && j < |all| && i != j && Holds(all[i], p)
    ensures !Holds(all[j], p)
  {
  }

  lemma UpdateKeepsApart(all: seq<Region>, i: nat, r: Region)
    requires i < |all| && PairwiseDisjoint(all)
    requires forall j, p: nat {:trigger Holds(all[i := r][j], p)} ::
               0 <= j < |all| && j != i && Holds(all[i := r][j], p) ==> !Holds(r, p)
    ensures PairwiseDisjoint(all[i := r])
  {
    var after := all[i := r];
    forall j, k, p: nat | 0 <= j < k < |after| && Holds(after[j], p)
      ensures !Holds(after[k], p)
    {
      if j != i && k != i {
        assert Holds(all[j], p) && !Holds(all[k], p);
      } else if k != i {
        assert after[k] == all[i := r][k];
      }
    }
  }

  /** Emptying a place frees its pages and nobody else's. */
  lemma GiveBackAt(used: seq<bool>, reserved: set<nat>, all: seq<Region>, i: nat)
    requires Accounted(used, reserved, all) && i < |all|
    ensures Accounted(Filled(used, all[i].start, all[i].start + all[i].count, false), reserved, all[i := Region(0, 0)])
  {
    var r, after := Region(0, 0), all[i := Region(0, 0)];
    var freed := Filled(used, all[i].start, all[i].start + all[i].count, false);
    forall j, p: nat {:trigger Holds(after[j], p)} | 0 <= j < |after| && Holds(after[j], p)
      ensures p < MAX_PAGES && p !in reserved && j != i && !Holds(all[i], p)
    {
      assert j != i && Holds(all[j], p);
      Apart(all, j, i, p);
    }
    forall p: nat | p < MAX_PAGES
      ensures freed[p] <==> p in reserved || Held(after, p)
    {
      FreedPage(used, reserved, all, i, p);
    }
    hide Accounted, Held, Filled;
    UpdateKeepsApart(all, i, r);
  }

  lemma FreedPage(used: seq<bool>, reserved: set<nat>, all: seq<Region>, i: nat, p: nat)
    requires Accounted(used, reserved, all) && i < |all| && p < MAX_PAGES
    ensures Filled(used, all[i].start, all[i].start + all[i].count, false)[p] <==>
            p in reserved || Held(all[i := Region(0, 0)], p)
  {
    HeldAfterUpdate(all, i, Region(0, 0), p);
    HeldByOthers(all, i, p);
    if Holds(all[i], p) {
      assert p !in reserved;
      forall j | 0 <= j < |all| && j != i
        ensures !Holds(all[j], p)
      {
        Apart(all, i, j, p);
      }
    }
  }

  // ---- empty entries come and go ----

  function Without(live: seq<Region>, k: nat): seq<Region>
    requires k < |live|
  {
    live[..k] + live[k + 1..]
  }

  function With(live: seq<Region>, k: nat, r: Region): seq<Region>
    requires k <= |live|
  {
    live[..k] + [r] + live[k..]
  }

  /** Two lists with the same holdings, entry by entry, keep the same accounts. */
  lemma SameHoldings(used: seq<bool>, reserved: set<nat>, all: seq<Region>, after: seq<Region>)
    requires Accounted(used, reserved, all) && PairwiseDisjoint(after)
    requires forall p: nat :: Held(after, p) <==> Held(all, p)
    ensures Accounted(used, reserved, after)
  {
    hide PairwiseDisjoint;
    forall i, p: nat {:trigger Holds(after[i], p)} | 0 <= i < |after| && Holds(after[i], p)
      ensures p < MAX_PAGES && p !in reserved
    {
      assert Held(after, p) && Held(all, p);
      var j :| 0 <= j < |all| && Holds(all[j], p);
    }
  }

  lemma EmptyComes(used: seq<bool>, reserved: set<nat>, all: seq<Region>, k: nat)
    requires Accounted(used, reserved, all) && k <= |all|
    ensures Accounted(used, reserved, With(all, k, Region(0, 0)))
  {
    var after := With(all, k, Region(0, 0));
    assert Without(after, k) == all;
    forall p: nat
      ensures Held(after, p) <==> Held(all, p)
    {
      HeldWithout(after, k, p);
    }
    ApartWith(all, k);
    hide Held, PairwiseDisjoint, With, Without;
    SameHoldings(used, reserved, all, after);
  }

  lemma EmptyGoes(used: seq<bool>, reserved: set<nat>, all: seq<Region>, k: nat)
    requires Accounted(used, reserved, all) && k < |all| && all[k].count == 0
    ensures Accounted(used, reserved, Without(all, k))
  {
    var after := Without(all, k);
    forall p: nat
      ensures Held(after, p) <==> Held(all, p)
    {
      HeldWithout(all, k, p);
    }
    ApartWithout(all, k);
    hide Held, PairwiseDisjoint, Without;
    SameHoldings(used, reserved, all, after);
  }

  lemma HeldWithout(all: seq<Region>, k: nat, p: nat)
    requires k < |all| && all[k].count == 0
    ensures Held(Without(all, k), p) <==> Held(all, p)
  {
    var after := Without(all, k);
    if Held(all, p) {
      var i :| 0 <= i < |all| && Holds(all[i], p);
      if i < k {
        assert after[i] == all[i];
      } else {
        assert i > k && after[i - 1] == all[i];
      }
    }
    if Held(after, p) {
      var i :| 0 <= i < |after| && Holds(after[i], p);
      assert after[i] == all[if i < k then i else i + 1];
    }
  }

  lemma ApartWithout(all: seq<Region>, k: nat)
    requires PairwiseDisjoint(all) && k < |all|
    ensures PairwiseDisjoint(Without(all, k))
  {
    var after := Without(all, k);
    forall i, j, p: nat | 0 <= i < j < |after| && Holds(after[i], p)
      ensures !Holds(after[j], p)
    {
      var i1, j1 := if i < k then i else i + 1, if j < k then j else j + 1;
      assert after[i] == all[i1] && after[j] == all[j1];
      Apart(all, i1, j1, p);
    }
  }

  lemma ApartWith(all: seq<Region>, k: nat)
    requires PairwiseDisjoint(all) && k <= |all|
    ensures PairwiseDisjoint(With(all, k, Region(0, 0)))
  {
    var after := With(all, k, Region(0, 0));
    forall i, j, p: nat | 0 <= i < j < |after| && Holds(after[i], p)
      ensures !Holds(after[j], p)
    {
      assert i != k;
      if j != k {
        var i1, j1 := if i < k then i else i - 1, if j < k then j else j - 1;
        assert after[i] == all[i1] && after[j] == all[j1];
        Apart(all, i1, j1, p);
      }
    }
  }

  // ---- allocation and release ----

  /** A freshly allocated run belongs to nobody else. */
  lemma TakeKeepsAccounts(used: seq<bool>, reserved: set<nat>, live: seq<Region>, s: nat, n: nat)
    requires Accounted(used, reserved, live) && IsRun(used, s, n)
    ensures Accounted(Filled(used, s, s + n, true), reserved, live + [Region(s, n)])
  {
    hide Accounted, IsRun, Filled;
    var k := |live|;
    EmptyComes(used, reserved, live, k);
    TakeAt(used, reserved, With(live, k, Region(0, 0)), k, s, n);
    assert With(live, k, Region(0, 0))[k := Region(s, n)] == live + [Region(s, n)];
  }

  /** Releasing a live region frees its pages and nobody else's. */
  lemma ReleaseKeepsAccounts(used: seq<bool>, reserved: set<nat>, live: seq<Region>, k: nat)
    requires Accounted(used, reserved, live) && k < |live|
    ensures Accounted(Filled(used, live[k].start, live[k].start + live[k].count, false), reserved, Without(live, k))
  {
    hide Accounted, Filled;
    GiveBackAt(used, reserved, live, k);
    EmptyGoes(Filled(used, live[k].start, live[k].start + live[k].count, false), reserved, live[k := Region(0, 0)], k);
    assert Without(live[k := Region(0, 0)], k) == Without(live, k);
  }

  lemma RegionInMemory(used: seq<bool>, reserved: set<nat>, live: seq<Region>, k: nat)
    requires Accounted(used, reserved, live) && k < |live| && live[k].count > 0
    ensures live[k].start + live[k].count <= MAX_PAGES
  {
    assert Holds(live[k], live[k].start + live[k].count - 1);
  }
}
