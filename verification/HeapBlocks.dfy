/** The kernel heap as a list of blocks: what first-fit allocation, splitting, growing and
    coalescing do to the list.  Positions and lengths count 8-byte words. */
module HeapBlocks {

  const HEADER: nat := 5
  const OVERHEAD: nat := 7
  /** The least payload, in words, that a split leaves behind: `cur->size >= size + OVERHEAD + 32`. */
  const MIN_REST: nat := 4

  /** A block whose header starts at word `at` and whose payload is `len` words long. */
  datatype Block = Block(at: nat, len: nat, free: bool)

  function Payload(b: Block): nat {
    b.at + HEADER
  }

  /** The first word after the footer. */
  function End(b: Block): nat {
    b.at + OVERHEAD + b.len
  }

  /** Block `i` ends where the next one begins. */
  ghost predicate Touches(bs: seq<Block>, i: nat)
    requires i + 1 < |bs|
  {
    End(bs[i]) == bs[i + 1].at
  }

  /** The blocks follow each other without gap or overlap. */
  ghost predicate Tiled(bs: seq<Block>) {
    forall i :: 0 <= i < |bs| - 1 ==> Touches(bs, i)
  }

  ghost predicate NoFreeNeighbours(bs: seq<Block>) {
    forall i {:trigger bs[i].free} :: 0 <= i < |bs| - 1 ==> !(bs[i].free && bs[i + 1].free)
  }

  /** Words taken by all blocks together, overhead included. */
  function Total(bs: seq<Block>): nat {
    if bs == [] then 0 else Total(bs[..|bs| - 1]) + OVERHEAD + bs[|bs| - 1].len
  }

  function RegionEnd(bs: seq<Block>): nat
    requires bs != []
  {
    End(bs[|bs| - 1])
  }

  // ---- allocation ----

  /** The test of the first-fit search for `n` payload words. */
  predicate Fits(b: Block, n: nat) {
    b.free && b.len >= n + OVERHEAD
  }

  ghost predicate IsFirstFit(bs: seq<Block>, n: nat, i: nat) {
    i < |bs| && Fits(bs[i], n) && forall j :: 0 <= j < i ==> !Fits(bs[j], n)
  }

  ghost predicate NoFit(bs: seq<Block>, n: nat) {
    forall j :: 0 <= j < |bs| ==> !Fits(bs[j], n)
  }

  lemma FitRefutesNoFit(bs: seq<Block>, n: nat, i: nat)
    requires i < |bs| && Fits(bs[i], n)
    ensures !NoFit(bs, n)
  {
  }

  /** Whether the rest of a fitting block is split off. */
  predicate Splits(b: Block, n: nat) {
    b.len >= n + OVERHEAD + MIN_REST
  }

  function Taken(b: Block, n: nat): Block {
    if Splits(b, n) then Block(b.at, n, false) else Block(b.at, b.len, false)
  }

  function Rest(b: Block, n: nat): Block
    requires Splits(b, n)
  {
    Block(b.at + OVERHEAD + n, b.len - n - OVERHEAD, true)
  }

  /** The list after `n` words are allocated from block `i`. */
  function Carve(bs: seq<Block>, i: nat, n: nat): seq<Block>
    requires i < |bs|
  {
    if Splits(bs[i], n) then bs[..i] + [Taken(bs[i], n), Rest(bs[i], n)] + bs[i + 1..]
    else bs[i := Taken(bs[i], n)]
  }

  // ---- release ----

  /** Blocks `i` and `i + 1` as one, as the two coalescing steps of `kfree` write it. */
  function Merge(bs: seq<Block>, i: nat): seq<Block>
    requires i + 1 < |bs|
  {
    bs[..i] + [Block(bs[i].at, bs[i].len + OVERHEAD + bs[i + 1].len, bs[i].free)] + bs[i + 2..]
  }

  function MergeNext(bs: seq<Block>, i: nat): seq<Block>
    requires i < |bs|
  {
    if i + 1 < |bs| && bs[i + 1].free then Merge(bs, i) else bs
  }

  function MergePrev(bs: seq<Block>, i: nat): seq<Block>
    requires i < |bs|
  {
    if i > 0 && bs[i - 1].free then Merge(bs, i - 1) else bs
  }

  /** The list after block `i` is freed. */
  function Released(bs: seq<Block>, i: nat): seq<Block>
    requires i < |bs|
  {
    MergePrev(MergeNext(bs[i := bs[i].(free := true)], i), i)
  }

  // ---- geometry ----

  /** Earlier blocks lie wholly below later ones. */
  lemma {:induction false} Ordered(bs: seq<Block>, i: nat, j: nat)
    requires Tiled(bs) && i < j < |bs|
    ensures End(bs[i]) <= bs[j].at
    decreases j - i
  {
    assert Touches(bs, i);
    if i + 1 < j {
      Ordered(bs, i + 1, j);
    }
  }

  /** Live payloads do not overlap. */
  lemma PayloadsAreDisjoint(bs: seq<Block>, i: nat, j: nat, w: nat)
    requires Tiled(bs) && i < |bs| && j < |bs| && i != j
    requires Payload(bs[i]) <= w < Payload(bs[i]) + bs[i].len
    ensures !(Payload(bs[j]) <= w < Payload(bs[j]) + bs[j].len)
  {
    if i < j {
      Ordered(bs, i, j);
    } else {
      Ordered(bs, j, i);
    }
  }

  lemma FrontIsTiled(bs: seq<Block>)
    requires Tiled(bs) && bs != []
    ensures Tiled(bs[..|bs| - 1])
  {
    var front := bs[..|bs| - 1];
    forall k | 0 <= k < |front| - 1
      ensures Touches(front, k)
    {
      assert Touches(bs, k);
    }
  }

  /** The tiled list covers its region exactly. */
  lemma {:induction false} TotalIsExtent(bs: seq<Block>)
    requires Tiled(bs) && bs != []
    ensures Total(bs) == RegionEnd(bs) - bs[0].at
  {
    var front := bs[..|bs| - 1];
    if front != [] {
      FrontIsTiled(bs);
      TotalIsExtent(front);
      assert Touches(bs, |bs| - 2);
    } else {
      assert Total(front) == 0;
    }
  }

  lemma {:induction false} TotalOfConcat(xs: seq<Block>, ys: seq<Block>)
    ensures Total(xs + ys) == Total(xs) + Total(ys)
  {
    if ys == [] {
      assert xs + ys == xs;
    } else {
      var front := ys[..|ys| - 1];
      assert (xs + ys)[..|xs + ys| - 1] == xs + front;
      TotalOfConcat(xs, front);
    }
  }

  lemma TotalOfOne(b: Block)
    ensures Total([b]) == OVERHEAD + b.len
  {
    assert [b][..0] == [];
  }

  lemma TotalOfTwo(b: Block, c: Block)
    ensures Total([b, c]) == OVERHEAD + b.len + OVERHEAD + c.len
  {
    assert [b, c] == [b] + [c];
    TotalOfConcat([b], [c]);
    TotalOfOne(b);
    TotalOfOne(c);
  }

  lemma TotalOfThree(xs: seq<Block>, ys: seq<Block>, zs: seq<Block>)
    ensures Total(xs + ys + zs) == Total(xs) + Total(ys) + Total(zs)
  {
    TotalOfConcat(xs + ys, zs);
    TotalOfConcat(xs, ys);
  }

  lemma ReplacingKeepsTotal(bs: seq<Block>, i: nat, j: nat, mid: seq<Block>)
    requires i <= j <= |bs| && Total(bs[i..j]) == Total(mid)
    ensures Total(bs[..i] + mid + bs[j..]) == Total(bs)
  {
    hide Total;
    assert bs == bs[..i] + bs[i..j] + bs[j..];
    TotalOfThree(bs[..i], bs[i..j], bs[j..]);
    TotalOfThree(bs[..i], mid, bs[j..]);
  }

  // ---- what allocation keeps ----

  lemma ReplacingOneKeepsTotal(bs: seq<Block>, i: nat, mid: seq<Block>)
    requires i < |bs| && Total(mid) == OVERHEAD + bs[i].len
    ensures Total(bs[..i] + mid + bs[i + 1..]) == Total(bs)
  {
    hide Total;
    assert bs[i..i + 1] == [bs[i]];
    TotalOfOne(bs[i]);
    ReplacingKeepsTotal(bs, i, i + 1, mid);
  }

  lemma CarveKeepsTotal(bs: seq<Block>, i: nat, n: nat)
    requires i < |bs|
    ensures Total(Carve(bs, i, n)) == Total(bs)
  {
    hide Total;
    if Splits(bs[i], n) {
      TotalOfTwo(Taken(bs[i], n), Rest(bs[i], n));
      ReplacingOneKeepsTotal(bs, i, [Taken(bs[i], n), Rest(bs[i], n)]);
    } else {
      TotalOfOne(Taken(bs[i], n));
      ReplacingOneKeepsTotal(bs, i, [Taken(bs[i], n)]);
      UpdateIsSplice(bs, i, Taken(bs[i], n));
    }
  }

  lemma UpdateIsSplice(bs: seq<Block>, i: nat, b: Block)
    requires i < |bs|
    ensures bs[i := b] == bs[..i] + [b] + bs[i + 1..]
  {
  }

  lemma CarveKeepsTiling(bs: seq<Block>, i: nat, n: nat)
    requires i < |bs| && Tiled(bs)
    ensures Tiled(Carve(bs, i, n))
  {
    var cs := Carve(bs, i, n);
    forall k | 0 <= k < |cs| - 1
      ensures Touches(cs, k)
    {
      if Splits(bs[i], n) {
        if k < i {
          assert Touches(bs, k);
        } else if k > i {
          assert Touches(bs, k - 1);
        }
      } else {
        assert Touches(bs, k);
      }
    }
  }

  /** Allocating from a list whose only free neighbours are block `i` and the block before
      it leaves no free neighbours: this covers both an ordinary allocation and the retry
      right after the heap has grown behind a free tail. */
  lemma CarveSeparates(bs: seq<Block>, i: nat, n: nat)
    requires i < |bs|
    requires forall k {:trigger bs[k].free} ::
               0 <= k < |bs| - 1 && k + 1 != i ==> !(bs[k].free && bs[k + 1].free)
    requires bs[i].free
    ensures NoFreeNeighbours(Carve(bs, i, n))
  {
    var cs := Carve(bs, i, n);
    forall k {:trigger cs[k].free} | 0 <= k < |cs| - 1
      ensures !(cs[k].free && cs[k + 1].free)
    {
      if Splits(bs[i], n) {
        assert k < i ==> cs[k] == bs[k];
        assert k + 1 < i ==> cs[k + 1] == bs[k + 1];
        assert k > i + 1 ==> cs[k] == bs[k - 1] && cs[k + 1] == bs[k];
        assert k == i + 1 ==> cs[k + 1] == bs[i + 1] && !(bs[i].free && bs[i + 1].free);
      }
    }
  }

  /** Every live block is still there after an allocation. */
  lemma CarveKeepsLive(bs: seq<Block>, i: nat, n: nat, j: nat)
    requires i < |bs| && j < |bs| && j != i
    ensures bs[j] in Carve(bs, i, n)
  {
    var cs := Carve(bs, i, n);
    if Splits(bs[i], n) {
      assert bs[j] == cs[if j < i then j else j + 1];
    } else {
      assert bs[j] == cs[j];
    }
  }

  // ---- what growing keeps ----

  lemma GrowKeeps(bs: seq<Block>, b: Block)
    requires Tiled(bs) && bs != [] && b.at == RegionEnd(bs)
    ensures Tiled(bs + [b])
    ensures Total(bs + [b]) == Total(bs) + OVERHEAD + b.len
  {
    TotalOfConcat(bs, [b]);
    TotalOfOne(b);
    forall k | 0 <= k < |bs|
      ensures Touches(bs + [b], k)
    {
      if k < |bs| - 1 {
        assert Touches(bs, k);
      }
    }
  }

  /** When no block fitted, the block that growing appends is the first that fits. */
  lemma GrownBlockIsFirstFit(bs: seq<Block>, b: Block, n: nat)
    requires NoFit(bs, n) && Fits(b, n)
    ensures IsFirstFit(bs + [b], n, |bs|)
  {
    assert forall j :: 0 <= j < |bs| ==> (bs + [b])[j] == bs[j];
  }

  // ---- what release keeps ----

  lemma MergeKeepsTotal(bs: seq<Block>, i: nat)
    requires i + 1 < |bs|
    ensures Total(Merge(bs, i)) == Total(bs)
  {
    hide Total;
    var m := Block(bs[i].at, bs[i].len + OVERHEAD + bs[i + 1].len, bs[i].free);
    assert bs[i..i + 2] == [bs[i], bs[i + 1]];
    TotalOfTwo(bs[i], bs[i + 1]);
    TotalOfOne(m);
    ReplacingKeepsTotal(bs, i, i + 2, [m]);
  }

  lemma MergeAt(bs: seq<Block>, i: nat, k: nat)
    requires i + 1 < |bs| && k < |bs| - 1
    ensures |Merge(bs, i)| == |bs| - 1
    ensures Merge(bs, i)[k] ==
            if k < i then bs[k]
            else if k == i then Block(bs[i].at, bs[i].len + OVERHEAD + bs[i + 1].len, bs[i].free)
            else bs[k + 1]
  {
  }

  lemma MergeKeepsTiling(bs: seq<Block>, i: nat)
    requires i + 1 < |bs| && Tiled(bs)
    ensures Tiled(Merge(bs, i))
  {
    var cs := Merge(bs, i);
    forall k | 0 <= k < |cs| - 1
      ensures Touches(cs, k)
    {
      MergeAt(bs, i, k);
      MergeAt(bs, i, k + 1);
      assert Touches(bs, k);
      assert Touches(bs, k + 1);
    }
  }

  /** Coalescing two list neighbours covers exactly the two of them if and only if they
      touch: `kfree` does not compare addresses. */
  lemma MergeIsExact(bs: seq<Block>, i: nat)
    requires i + 1 < |bs|
    ensures End(Merge(bs, i)[i]) == End(bs[i + 1]) <==> End(bs[i]) == bs[i + 1].at
  {
    MergeAt(bs, i, i);
  }

  /** Two free one-page blocks with a page between them: the merged block ends with that page,
      which the heap does not own, and the second block's page is lost. */
  lemma MergeOverGap(page: nat)
    ensures var bs := [Block(512 * page, 505, true), Block(512 * (page + 2), 505, true)];
            && End(bs[0]) == 512 * (page + 1) && End(bs[1]) == 512 * (page + 3)
            && Merge(bs, 0) == [Block(512 * page, 1017, true)] && End(Merge(bs, 0)[0]) == 512 * (page + 2)
  {
    var bs := [Block(512 * page, 505, true), Block(512 * (page + 2), 505, true)];
    assert bs[..0] == [] && bs[2..] == [];
  }

  lemma ReleasedKeepsTiling(bs: seq<Block>, i: nat)
    requires i < |bs| && Tiled(bs)
    ensures Tiled(Released(bs, i)) && Total(Released(bs, i)) == Total(bs)
  {
    hide Tiled, Total, Merge;
    var freed := bs[i := bs[i].(free := true)];
    FreeFlagKeepsTiling(bs, i);
    FreeFlagKeepsTotal(bs, i);
    if i + 1 < |freed| && freed[i + 1].free {
      MergeKeepsTiling(freed, i);
      MergeKeepsTotal(freed, i);
      MergeAt(freed, i, i);
    }
    var merged := MergeNext(freed, i);
    if i > 0 && merged[i - 1].free {
      MergeKeepsTiling(merged, i - 1);
      MergeKeepsTotal(merged, i - 1);
    }
  }

  lemma FreeFlagKeepsTiling(bs: seq<Block>, i: nat)
    requires i < |bs| && Tiled(bs)
    ensures Tiled(bs[i := bs[i].(free := true)])
  {
    var freed := bs[i := bs[i].(free := true)];
    forall k | 0 <= k < |freed| - 1
      ensures Touches(freed, k)
    {
      assert Touches(bs, k);
    }
  }

  lemma FreeFlagKeepsTotal(bs: seq<Block>, i: nat)
    requires i < |bs|
    ensures Total(bs[i := bs[i].(free := true)]) == Total(bs)
  {
    hide Total;
    var b := bs[i].(free := true);
    TotalOfOne(b);
    ReplacingOneKeepsTotal(bs, i, [b]);
    UpdateIsSplice(bs, i, b);
  }

  /** Freeing a live block leaves no two free neighbours. */
  lemma ReleasedSeparates(bs: seq<Block>, i: nat)
    requires i < |bs| && NoFreeNeighbours(bs) && !bs[i].free
    ensures NoFreeNeighbours(Released(bs, i))
  {
    var freed := bs[i := bs[i].(free := true)];
    var merged := MergeNext(freed, i);
    assert forall k :: 0 <= k < i ==> merged[k] == bs[k];
    assert merged[i].free && (i + 1 < |merged| ==> !merged[i + 1].free) by {
      if i + 1 < |freed| && freed[i + 1].free {
        MergeAt(freed, i, i);
        if i + 2 < |freed| {
          MergeAt(freed, i, i + 1);
          assert !(bs[i + 1].free && bs[i + 2].free);
        }
      }
    }
    AfterMergeNext(bs, i);
    var done := MergePrev(merged, i);
    forall k {:trigger done[k].free} | 0 <= k < |done| - 1
      ensures !(done[k].free && done[k + 1].free)
    {
      if i > 0 && merged[i - 1].free {
        MergeAt(merged, i - 1, k);
        MergeAt(merged, i - 1, k + 1);
        assert k + 1 == i - 1 ==> !bs[k].free;
      }
    }
  }

  /** After the first coalescing step only the pair before block `i` can still be free. */
  lemma AfterMergeNext(bs: seq<Block>, i: nat)
    requires i < |bs| && NoFreeNeighbours(bs) && !bs[i].free
    ensures var merged := MergeNext(bs[i := bs[i].(free := true)], i);
            && i < |merged|
            && forall k {:trigger merged[k].free} ::
                 0 <= k < |merged| - 1 && k + 1 != i ==> !(merged[k].free && merged[k + 1].free)
  {
    var freed := bs[i := bs[i].(free := true)];
    var merged := MergeNext(freed, i);
    forall k {:trigger merged[k].free} | 0 <= k < |merged| - 1 && k + 1 != i
      ensures !(merged[k].free && merged[k + 1].free)
    {
      assert !(bs[k].free && bs[k + 1].free);
      if i + 1 < |freed| && freed[i + 1].free {
        MergeAt(freed, i, k);
        MergeAt(freed, i, k + 1);
        assert !(bs[k + 1].free && bs[k + 2].free);
      }
    }
  }

  lemma ReleasedIsNotEmpty(bs: seq<Block>, i: nat)
    requires i < |bs|
    ensures Released(bs, i) != []
    ensures var merged := MergeNext(bs[i := bs[i].(free := true)], i);
            i < |merged| && merged[i].at == bs[i].at && merged[i].free
  {
  }

  /** Every live block but the freed one is still there after a release. */
  lemma ReleasedKeepsLive(bs: seq<Block>, i: nat, j: nat)
    requires i < |bs| && j < |bs| && j != i && !bs[j].free
    ensures bs[j] in Released(bs, i)
  {
    var freed := bs[i := bs[i].(free := true)];
    var merged := MergeNext(freed, i);
    var j' := if j > i && |merged| < |freed| then j - 1 else j;
    assert merged[j'] == bs[j] by {
      if |merged| < |freed| {
        MergeAt(freed, i, j');
      }
    }
    var done := MergePrev(merged, i);
    if i > 0 && merged[i - 1].free {
      var j'' := if j' > i then j' - 1 else j';
      MergeAt(merged, i - 1, j'');
      assert done[j''] == bs[j];
    }
  }

  // ---- the retry after growing ----

  /** The only free neighbours there may be are a free tail and a fresh block that is the
      first to fit `n` words. */
  ghost predicate AlmostSeparated(bs: seq<Block>, n: nat) {
    forall k {:trigger bs[k].free} ::
      0 <= k < |bs| - 1 && bs[k].free && bs[k + 1].free ==> IsFirstFit(bs, n, k + 1)
  }

  lemma SeparatedIsAlmost(bs: seq<Block>, n: nat)
    ensures NoFreeNeighbours(bs) ==> AlmostSeparated(bs, n)
    ensures NoFit(bs, n) && AlmostSeparated(bs, n) ==> NoFreeNeighbours(bs)
  {
  }

  /** Growing a list without a fit keeps it almost separated. */
  lemma GrowAlmostSeparates(bs: seq<Block>, b: Block, n: nat)
    requires NoFit(bs, n) && Fits(b, n) && NoFreeNeighbours(bs)
    ensures AlmostSeparated(bs + [b], n)
  {
    var cs := bs + [b];
    GrownBlockIsFirstFit(bs, b, n);
    assert forall t {:trigger cs[t]} :: 0 <= t < |bs| ==> cs[t] == bs[t];
    forall k {:trigger cs[k].free} | 0 <= k < |cs| - 1 && cs[k].free && cs[k + 1].free
      ensures IsFirstFit(cs, n, k + 1)
    {
    }
  }

  /** Allocating the first fit from an almost separated list separates it. */
  lemma CarveRestores(bs: seq<Block>, i: nat, n: nat)
    requires IsFirstFit(bs, n, i) && AlmostSeparated(bs, n)
    ensures NoFreeNeighbours(Carve(bs, i, n)) && Carve(bs, i, n) != []
  {
    forall k {:trigger bs[k].free} | 0 <= k < |bs| - 1 && k + 1 != i
      ensures !(bs[k].free && bs[k + 1].free)
    {
    }
    CarveSeparates(bs, i, n);
  }

  /** Distinct blocks start at distinct words. */
  lemma StartsAreDistinct(bs: seq<Block>, i: nat, j: nat)
    requires Tiled(bs) && i < |bs| && j < |bs| && i != j
    ensures bs[i].at != bs[j].at
  {
    if i < j {
      Ordered(bs, i, j);
    } else {
      Ordered(bs, j, i);
    }
  }

  /** The allocated block is in the list, live, and at least as long as asked for. */
  lemma TakenIsInCarve(bs: seq<Block>, i: nat, n: nat)
    requires i < |bs| && Fits(bs[i], n)
    ensures var b := Taken(bs[i], n);
            b in Carve(bs, i, n) && !b.free && b.len >= n && b.at == bs[i].at
  {
    assert Carve(bs, i, n)[i] == Taken(bs[i], n);
  }
}
