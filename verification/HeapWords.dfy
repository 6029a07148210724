/** How a list of heap blocks lies in memory: headers, footers and links as 8-byte words. */
module HeapWords {
  import opened HeapBlocks

  const HEAP_MAGIC_FREE: nat := 0xDEAD_BEEF
  const HEAP_MAGIC_USED: nat := 0xCAFE_BABE

  function Magic(free: bool): nat {
    if free then HEAP_MAGIC_FREE else HEAP_MAGIC_USED
  }

  function Flag(free: bool): nat {
    if free then 1 else 0
  }

  /** The address of word `at`; 0 is the null pointer. */
  function Addr(at: nat): nat {
    8 * at
  }

  function PrevPtr(bs: seq<Block>, i: nat): nat
    requires i < |bs|
  {
    if i == 0 then 0 else Addr(bs[i - 1].at)
  }

  function NextPtr(bs: seq<Block>, i: nat): nat
    requires i < |bs|
  {
    if i + 1 < |bs| then Addr(bs[i + 1].at) else 0
  }

  function HeadPtr(bs: seq<Block>): nat {
    if bs == [] then 0 else Addr(bs[0].at)
  }

  /** Header and footer of `b` agree with each other and with `b`. */
  ghost predicate BlockOk(m: seq<nat>, b: Block) {
    && 0 < b.at && End(b) <= |m|
    && m[b.at] == Magic(b.free) && m[b.at + 1] == 8 * b.len && m[b.at + 2] == Flag(b.free)
    && m[Payload(b) + b.len] == Magic(b.free) && m[Payload(b) + b.len + 1] == Addr(b.at)
  }

  /** `prev` and `next` of block `i` point to its list neighbours. */
  ghost predicate LinksOk(m: seq<nat>, bs: seq<Block>, i: nat)
    requires i < |bs| && End(bs[i]) <= |m|
  {
    m[bs[i].at + 3] == PrevPtr(bs, i) && m[bs[i].at + 4] == NextPtr(bs, i)
  }

  ghost predicate NodeOk(m: seq<nat>, bs: seq<Block>, i: nat)
    requires i < |bs|
  {
    BlockOk(m, bs[i]) && LinksOk(m, bs, i)
  }

  /** Memory holds exactly the list `bs`. */
  ghost predicate Rep(m: seq<nat>, bs: seq<Block>) {
    forall i :: 0 <= i < |bs| ==> NodeOk(m, bs, i)
  }

  lemma RepOfNothing(m: seq<nat>)
    ensures Rep(m, []) && Tiled([]) && Total([]) == 0
  {
  }

  lemma RepAt(m: seq<nat>, bs: seq<Block>, i: nat)
    requires Rep(m, bs) && Tiled(bs) && i < |bs|
    ensures NodeOk(m, bs, i)
    ensures i + 1 < |bs| ==> NodeOk(m, bs, i + 1) && Touches(bs, i)
    ensures i + 2 < |bs| ==> NodeOk(m, bs, i + 2) && Touches(bs, i + 1)
  {
  }

  /** The memories agree outside `[lo, hi)` and word `k`. */
  ghost predicate AgreeOutside(m: seq<nat>, m': seq<nat>, lo: nat, hi: nat, k: nat) {
    |m'| == |m| && forall w {:trigger m'[w]} :: 0 <= w < |m| && !(lo <= w < hi) && w != k ==> m'[w] == m[w]
  }

  /** The payload of `b` is untouched. */
  ghost predicate PayloadKept(m: seq<nat>, m': seq<nat>, b: Block) {
    |m'| == |m| && forall w {:trigger m'[w]} :: Payload(b) <= w < Payload(b) + b.len && w < |m| ==> m'[w] == m[w]
  }

  /** The payload of `to` starts with the whole payload that `from` had. */
  ghost predicate Copied(m: seq<nat>, from: Block, m': seq<nat>, to: Block) {
    && from.len <= to.len && End(from) <= |m| && End(to) <= |m'|
    && forall w: nat {:trigger m'[w]} ::
         Payload(to) <= w < Payload(to) + from.len ==> m'[w] == m[w - Payload(to) + Payload(from)]
  }

  /** Every live block except `but` keeps its place in the list and its payload. */
  ghost predicate LiveKept(m: seq<nat>, bs: seq<Block>, m': seq<nat>, bs': seq<Block>, but: nat) {
    forall j {:trigger bs[j]} :: 0 <= j < |bs| && j != but && !bs[j].free ==>
      bs[j] in bs' && PayloadKept(m, m', bs[j])
  }

  /** Nothing changed outside the region of `size` bytes from address `lo` on. */
  ghost predicate RegionOnly(m: seq<nat>, m': seq<nat>, lo: nat, size: nat) {
    |m'| == |m| &&
    forall w {:trigger m'[w]} :: 0 <= w < |m| && !(lo <= 8 * w < lo + size) ==> m'[w] == m[w]
  }

  lemma RegionTwice(m: seq<nat>, m1: seq<nat>, m2: seq<nat>, lo: nat, size: nat, more: nat)
    requires RegionOnly(m, m1, lo, size) && RegionOnly(m1, m2, lo, more) && size <= more
    ensures RegionOnly(m, m2, lo, more)
  {
  }

  lemma NothingOutside(m: seq<nat>, lo: nat, size: nat)
    ensures RegionOnly(m, m, lo, size)
  {
  }

  lemma BlockInRegion(bs: seq<Block>, i: nat)
    requires Tiled(bs) && i < |bs|
    ensures bs[0].at <= bs[i].at && End(bs[i]) <= bs[0].at + Total(bs)
  {
    TotalIsExtent(bs);
    hide Tiled, Total;
    if i > 0 {
      Ordered(bs, 0, i);
    }
    if i < |bs| - 1 {
      Ordered(bs, i, |bs| - 1);
    }
  }

  /** Rewriting a stretch of the list stays in the region of the list. */
  lemma SpliceInRegion(m: seq<nat>, m': seq<nat>, bs: seq<Block>, i: nat, j: nat, mid: seq<Block>)
    requires i < j <= |bs| && mid != [] && Tiled(bs) && Splices(m, m', bs, i, j, mid)
    ensures RegionOnly(m, m', HeadPtr(bs), 8 * Total(bs))
  {
    BlockInRegion(bs, i);
    BlockInRegion(bs, j - 1);
    if j < |bs| {
      BlockInRegion(bs, j);
    }
    hide Tiled, Total, NodeOk;
  }

  lemma BlockOkFrame(m: seq<nat>, m': seq<nat>, b: Block, lo: nat, hi: nat, k: nat)
    requires BlockOk(m, b) && AgreeOutside(m, m', lo, hi, k)
    requires End(b) <= lo || hi <= b.at
    requires k < b.at || k == b.at + 3 || k == b.at + 4 || End(b) <= k
    ensures BlockOk(m', b)
  {
  }

  // ---- replacing a stretch of the list ----

  /** `bs` with blocks `i` to `j - 1` replaced by `mid`. */
  function Spliced(bs: seq<Block>, i: nat, j: nat, mid: seq<Block>): seq<Block>
    requires i < j <= |bs|
  {
    bs[..i] + mid + bs[j..]
  }

  /** `mid` may replace blocks `i` to `j - 1`: it covers the same words, it is written in
      `m'`, and the block after it points back to its last block. */
  ghost predicate Splices(m: seq<nat>, m': seq<nat>, bs: seq<Block>, i: nat, j: nat, mid: seq<Block>)
    requires i < j <= |bs| && mid != []
  {
    && mid[0].at == bs[i].at && End(mid[|mid| - 1]) == End(bs[j - 1])
    && AgreeOutside(m, m', bs[i].at, End(bs[j - 1]), if j < |bs| then bs[j].at + 3 else bs[i].at)
    && (forall t :: i <= t < i + |mid| ==> NodeOk(m', Spliced(bs, i, j, mid), t))
    && (j < |bs| ==> bs[j].at + 3 < |m'| && m'[bs[j].at + 3] == Addr(mid[|mid| - 1].at))
  }

  lemma SplicedAt(bs: seq<Block>, i: nat, j: nat, mid: seq<Block>, k: nat)
    requires i < j <= |bs| && k < i + |mid| + (|bs| - j)
    ensures |Spliced(bs, i, j, mid)| == i + |mid| + (|bs| - j)
    ensures Spliced(bs, i, j, mid)[k] ==
            if k < i then bs[k] else if k < i + |mid| then mid[k - i] else bs[k - |mid| - i + j]
  {
  }

  lemma SpliceKeepsRep(m: seq<nat>, m': seq<nat>, bs: seq<Block>, i: nat, j: nat, mid: seq<Block>)
    requires i < j <= |bs| && mid != []
    requires Rep(m, bs) && Tiled(bs) && Splices(m, m', bs, i, j, mid)
    ensures Rep(m', Spliced(bs, i, j, mid))
  {
    var cs := Spliced(bs, i, j, mid);
    forall k | 0 <= k < |cs|
      ensures NodeOk(m', cs, k)
    {
      SplicedAt(bs, i, j, mid, k);
      if k < i {
        SpliceBefore(m, m', bs, i, j, mid, k);
      } else if i + |mid| <= k {
        SpliceAfter(m, m', bs, i, j, mid, k);
      }
    }
  }

  lemma SpliceBefore(m: seq<nat>, m': seq<nat>, bs: seq<Block>, i: nat, j: nat, mid: seq<Block>, k: nat)
    requires i < j <= |bs| && mid != [] && k < i
    requires Rep(m, bs) && Tiled(bs) && Splices(m, m', bs, i, j, mid)
    ensures var cs := Spliced(bs, i, j, mid);
            k < |cs| && NodeOk(m', cs, k)
  {
    var x := if j < |bs| then bs[j].at + 3 else bs[i].at;
    Ordered(bs, k, i);
    if j < |bs| {
      Ordered(bs, k, j);
    }
    SplicedAt(bs, i, j, mid, k);
    SplicedAt(bs, i, j, mid, k + 1);
    if k > 0 {
      SplicedAt(bs, i, j, mid, k - 1);
    }
    assert NodeOk(m, bs, k);
    BlockOkFrame(m, m', bs[k], bs[i].at, End(bs[j - 1]), x);
  }

  lemma SpliceAfter(m: seq<nat>, m': seq<nat>, bs: seq<Block>, i: nat, j: nat, mid: seq<Block>, k: nat)
    requires i < j <= |bs| && mid != [] && i + |mid| <= k < i + |mid| + (|bs| - j)
    requires Rep(m, bs) && Tiled(bs) && Splices(m, m', bs, i, j, mid)
    ensures var cs := Spliced(bs, i, j, mid);
            k < |cs| && NodeOk(m', cs, k)
  {
    var q := k - |mid| - i + j;
    Ordered(bs, j - 1, q);
    if j < q {
      Ordered(bs, j, q);
    }
    SplicedAt(bs, i, j, mid, k);
    SplicedAt(bs, i, j, mid, k - 1);
    if k + 1 < |Spliced(bs, i, j, mid)| {
      SplicedAt(bs, i, j, mid, k + 1);
    }
    assert NodeOk(m, bs, q);
    BlockOkFrame(m, m', bs[q], bs[i].at, End(bs[j - 1]), bs[j].at + 3);
  }

  /** Blocks outside the stretch keep their payload. */
  lemma SpliceKeepsPayload(m: seq<nat>, m': seq<nat>, bs: seq<Block>, i: nat, j: nat, mid: seq<Block>, t: nat)
    requires i < j <= |bs| && mid != [] && t < |bs| && (t < i || j <= t)
    requires Tiled(bs) && Splices(m, m', bs, i, j, mid)
    ensures PayloadKept(m, m', bs[t])
  {
    if t < i {
      Ordered(bs, t, i);
      if j < |bs| {
        Ordered(bs, t, j);
      }
    } else {
      Ordered(bs, j - 1, t);
      if j < t {
        Ordered(bs, j, t);
      }
    }
  }

  // ---- appending a block ----

  /** A block written behind the last one and linked to it extends the list. */
  lemma AppendKeepsRep(m: seq<nat>, m': seq<nat>, bs: seq<Block>, b: Block)
    requires bs != [] && Rep(m, bs) && Tiled(bs) && b.at == RegionEnd(bs)
    requires BlockOk(m', b) && AgreeOutside(m, m', b.at, End(b), bs[|bs| - 1].at + 4)
    requires m'[b.at + 3] == Addr(bs[|bs| - 1].at) && m'[b.at + 4] == 0
    requires m'[bs[|bs| - 1].at + 4] == Addr(b.at)
    ensures Rep(m', bs + [b])
    ensures forall t :: 0 <= t < |bs| ==> PayloadKept(m, m', bs[t])
  {
    hide Tiled;
    var last := |bs| - 1;
    var cs := bs + [b];
    forall t | 0 <= t < |cs|
      ensures NodeOk(m', cs, t)
      ensures t < |bs| ==> PayloadKept(m, m', bs[t])
    {
      if t < last {
        Ordered(bs, t, last);
      }
      if t < |bs| {
        assert cs[t] == bs[t];
        assert NodeOk(m, bs, t);
        BlockOkFrame(m, m', bs[t], b.at, End(b), bs[last].at + 4);
      }
    }
  }

  lemma AppendInRegion(m: seq<nat>, m': seq<nat>, bs: seq<Block>, b: Block)
    requires bs != [] && Tiled(bs) && b.at == RegionEnd(bs)
    requires AgreeOutside(m, m', b.at, End(b), bs[|bs| - 1].at + 4)
    ensures RegionOnly(m, m', HeadPtr(bs), 8 * Total(bs + [b]))
  {
    GrowKeeps(bs, b);
    BlockInRegion(bs + [b], |bs|);
    BlockInRegion(bs, |bs| - 1);
    hide Tiled, Total;
  }

  // ---- the two stretches the allocator rewrites ----

  /** What the splitting branch of `kmalloc` leaves in memory is a splice. */
  lemma SplitIsSplice(m: seq<nat>, m': seq<nat>, bs: seq<Block>, i: nat, n: nat)
    requires i < |bs| && Splits(bs[i], n) && NodeOk(m, bs, i)
    requires var next := Rest(bs[i], n).at;
             && AgreeOutside(m, m', bs[i].at, End(bs[i]), if i + 1 < |bs| then bs[i + 1].at + 3 else bs[i].at)
             && BlockOk(m', Taken(bs[i], n)) && BlockOk(m', Rest(bs[i], n))
             && m'[bs[i].at + 3] == m[bs[i].at + 3] && m'[bs[i].at + 4] == Addr(next)
             && m'[next + 3] == Addr(bs[i].at) && m'[next + 4] == m[bs[i].at + 4]
             && (i + 1 < |bs| ==> bs[i + 1].at + 3 < |m'| && m'[bs[i + 1].at + 3] == Addr(next))
    ensures Splices(m, m', bs, i, i + 1, [Taken(bs[i], n), Rest(bs[i], n)])
  {
    var mid := [Taken(bs[i], n), Rest(bs[i], n)];
    var cs := Spliced(bs, i, i + 1, mid);
    assert cs[i] == mid[0] && cs[i + 1] == mid[1];
    assert i > 0 ==> cs[i - 1] == bs[i - 1];
    assert i + 1 < |bs| ==> cs[i + 2] == bs[i + 1];
    assert NodeOk(m', cs, i);
    assert NodeOk(m', cs, i + 1);
  }

  /** What rewriting one block `b` over blocks `i` to `j - 1` leaves in memory is a splice. */
  lemma OneBlockIsSplice(m: seq<nat>, m': seq<nat>, bs: seq<Block>, i: nat, j: nat, b: Block)
    requires i < j <= |bs| && NodeOk(m, bs, i) && NodeOk(m, bs, j - 1)
    requires b.at == bs[i].at && End(b) == End(bs[j - 1])
    requires AgreeOutside(m, m', b.at, End(b), if j < |bs| then bs[j].at + 3 else b.at)
    requires BlockOk(m', b)
    requires m'[b.at + 3] == m[b.at + 3] && m'[b.at + 4] == m[bs[j - 1].at + 4]
    requires j < |bs| ==> bs[j].at + 3 < |m'| && m'[bs[j].at + 3] == Addr(b.at)
    ensures Splices(m, m', bs, i, j, [b])
  {
    var cs := Spliced(bs, i, j, [b]);
    assert cs[i] == b;
    assert i > 0 ==> cs[i - 1] == bs[i - 1];
    assert j < |bs| ==> cs[i + 1] == bs[j];
    assert NodeOk(m', cs, i);
  }

  lemma FirstBlockRep(m: seq<nat>, b: Block)
    requires BlockOk(m, b) && m[b.at + 3] == 0 && m[b.at + 4] == 0
    ensures Rep(m, [b]) && Tiled([b])
  {
    assert [b][0] == b;
    assert NodeOk(m, [b], 0);
  }

  // ---- whole steps on the list ----

  function CarvedStretch(b: Block, n: nat): seq<Block> {
    if Splits(b, n) then [Taken(b, n), Rest(b, n)] else [b.(free := false)]
  }

  /** Rewriting the chosen block is the abstract allocation, and no live block notices. */
  lemma CarveInMemory(m: seq<nat>, m': seq<nat>, bs: seq<Block>, i: nat, n: nat)
    requires i < |bs| && bs[i].free && Rep(m, bs) && Tiled(bs)
    requires Splices(m, m', bs, i, i + 1, CarvedStretch(bs[i], n))
    ensures var cs := Carve(bs, i, n);
            && Rep(m', cs) && Tiled(cs) && Total(cs) == Total(bs) && HeadPtr(cs) == HeadPtr(bs)
            && LiveKept(m, bs, m', cs, i)
            && RegionOnly(m, m', HeadPtr(cs), 8 * Total(cs))
  {
    hide Splices, Rep, Total, RegionOnly;
    var mid := CarvedStretch(bs[i], n);
    SpliceKeepsRep(m, m', bs, i, i + 1, mid);
    SpliceInRegion(m, m', bs, i, i + 1, mid);
    assert Spliced(bs, i, i + 1, mid) == Carve(bs, i, n);
    CarveKeepsTiling(bs, i, n);
    CarveKeepsTotal(bs, i, n);
    forall j | 0 <= j < |bs| && j != i && !bs[j].free
      ensures bs[j] in Carve(bs, i, n) && PayloadKept(m, m', bs[j])
    {
      CarveKeepsLive(bs, i, n, j);
      SpliceKeepsPayload(m, m', bs, i, i + 1, mid, j);
    }
  }

  /** Marking block `i` free in place. */
  lemma FreeInMemory(m: seq<nat>, m': seq<nat>, bs: seq<Block>, i: nat)
    requires i < |bs| && Rep(m, bs) && Tiled(bs)
    requires Splices(m, m', bs, i, i + 1, [bs[i].(free := true)])
    ensures var cs := bs[i := bs[i].(free := true)];
            && Rep(m', cs) && Tiled(cs) && Total(cs) == Total(bs) && HeadPtr(cs) == HeadPtr(bs)
            && LiveKept(m, bs, m', cs, i)
            && RegionOnly(m, m', HeadPtr(cs), 8 * Total(cs))
  {
    hide Splices, Rep, Total, RegionOnly;
    var cs := bs[i := bs[i].(free := true)];
    FreeFlagKeepsTotal(bs, i);
    SpliceKeepsRep(m, m', bs, i, i + 1, [bs[i].(free := true)]);
    SpliceInRegion(m, m', bs, i, i + 1, [bs[i].(free := true)]);
    assert Spliced(bs, i, i + 1, [bs[i].(free := true)]) == cs;
    forall k | 0 <= k < |cs| - 1
      ensures Touches(cs, k)
    {
      assert Touches(bs, k);
    }
    forall j | 0 <= j < |bs| && j != i && !bs[j].free
      ensures bs[j] in cs && PayloadKept(m, m', bs[j])
    {
      assert cs[j] == bs[j];
      SpliceKeepsPayload(m, m', bs, i, i + 1, [bs[i].(free := true)], j);
    }
  }

  /** One coalescing step is the abstract merge, and no live block notices. */
  lemma MergeInMemory(m: seq<nat>, m': seq<nat>, bs: seq<Block>, i: nat)
    requires i + 1 < |bs| && bs[i].free && bs[i + 1].free && Rep(m, bs) && Tiled(bs)
    requires Splices(m, m', bs, i, i + 2, [Merge(bs, i)[i]])
    ensures var cs := Merge(bs, i);
            && Rep(m', cs) && Tiled(cs) && Total(cs) == Total(bs) && HeadPtr(cs) == HeadPtr(bs)
            && LiveKept(m, bs, m', cs, |bs|)
            && RegionOnly(m, m', HeadPtr(cs), 8 * Total(cs))
  {
    hide Splices, Rep, Total, RegionOnly;
    MergeKeepsTotal(bs, i);
    var mid := [Merge(bs, i)[i]];
    SpliceKeepsRep(m, m', bs, i, i + 2, mid);
    SpliceInRegion(m, m', bs, i, i + 2, mid);
    assert Spliced(bs, i, i + 2, mid) == Merge(bs, i);
    MergeKeepsTiling(bs, i);
    forall j | 0 <= j < |bs| && !bs[j].free
      ensures bs[j] in Merge(bs, i) && PayloadKept(m, m', bs[j])
    {
      MergeAt(bs, i, if j < i then j else j - 1);
      assert Merge(bs, i)[if j < i then j else j - 1] == bs[j];
      SpliceKeepsPayload(m, m', bs, i, i + 2, mid, j);
    }
  }

  lemma LiveKeptTwice(m: seq<nat>, bs: seq<Block>, m1: seq<nat>, bs1: seq<Block>, m2: seq<nat>, bs2: seq<Block>, but: nat)
    requires LiveKept(m, bs, m1, bs1, but) && LiveKept(m1, bs1, m2, bs2, |bs1|)
    ensures LiveKept(m, bs, m2, bs2, but)
  {
    forall j | 0 <= j < |bs| && j != but && !bs[j].free
      ensures bs[j] in bs2 && PayloadKept(m, m2, bs[j])
    {
      var k :| 0 <= k < |bs1| && bs1[k] == bs[j];
      assert PayloadKept(m1, m2, bs1[k]);
    }
  }

  lemma LiveKeptAlways(m: seq<nat>, bs: seq<Block>)
    ensures LiveKept(m, bs, m, bs, |bs|)
  {
  }

  /** Growing and then allocating from the fresh block keeps every live block. */
  lemma LiveKeptThroughGrowth(m: seq<nat>, bs: seq<Block>, m1: seq<nat>, b: Block, m2: seq<nat>, cs: seq<Block>)
    requires forall j :: 0 <= j < |bs| ==> PayloadKept(m, m1, bs[j])
    requires LiveKept(m1, bs + [b], m2, cs, |bs| + 1)
    ensures LiveKept(m, bs, m2, cs, |bs|)
  {
    forall j | 0 <= j < |bs| && !bs[j].free
      ensures bs[j] in cs && PayloadKept(m, m2, bs[j])
    {
      assert (bs + [b])[j] == bs[j];
      assert PayloadKept(m1, m2, bs[j]);
    }
  }

  lemma LiveKeptButFree(m: seq<nat>, bs: seq<Block>, m1: seq<nat>, cs: seq<Block>, i: nat)
    requires i < |bs| && bs[i].free && LiveKept(m, bs, m1, cs, i)
    ensures LiveKept(m, bs, m1, cs, |bs|)
  {
  }

  // ---- stores into a payload ----

  /** Stores into the payload of block `j` disturb neither the list nor any other payload. */
  lemma PayloadStoreIsInvisible(m: seq<nat>, m': seq<nat>, bs: seq<Block>, j: nat)
    requires j < |bs| && Rep(m, bs) && Tiled(bs) && |m'| == |m|
    requires forall w {:trigger m'[w]} ::
               0 <= w < |m| && !(Payload(bs[j]) <= w < Payload(bs[j]) + bs[j].len) ==> m'[w] == m[w]
    ensures Rep(m', bs) && LiveKept(m, bs, m', bs, j)
    ensures RegionOnly(m, m', HeadPtr(bs), 8 * Total(bs))
  {
    BlockInRegion(bs, j);
    forall i | 0 <= i < |bs|
      ensures NodeOk(m', bs, i)
      ensures i != j ==> PayloadKept(m, m', bs[i])
    {
      assert NodeOk(m, bs, i);
      if i < j {
        Ordered(bs, i, j);
      } else if j < i {
        Ordered(bs, j, i);
      }
    }
  }

  /** `len` words from `src` on are copied to `dst`, and nothing else changes. */
  ghost predicate WordsCopied(m: seq<nat>, m': seq<nat>, dst: nat, src: nat, len: nat)
    requires src + len <= |m|
  {
    && |m'| == |m|
    && (forall w {:trigger m'[w]} :: dst <= w < dst + len && w < |m| ==> m'[w] == m[w - dst + src])
    && (forall w {:trigger m'[w]} :: 0 <= w < |m| && !(dst <= w < dst + len) ==> m'[w] == m[w])
  }

  /** Copying one payload into another disturbs neither the list nor any third payload. */
  lemma CopyInMemory(m: seq<nat>, m': seq<nat>, bs: seq<Block>, k: nat, j: nat)
    requires k < |bs| && j < |bs| && j != k && Rep(m, bs) && Tiled(bs) && bs[k].len <= bs[j].len
    requires End(bs[k]) <= |m| && End(bs[j]) <= |m|
    requires WordsCopied(m, m', Payload(bs[j]), Payload(bs[k]), bs[k].len)
    ensures Rep(m', bs) && Copied(m, bs[k], m', bs[j]) && LiveKept(m, bs, m', bs, j)
    ensures RegionOnly(m, m', HeadPtr(bs), 8 * Total(bs))
  {
    hide Rep, Tiled, Total, LiveKept, RegionOnly;
    PayloadStoreIsInvisible(m, m', bs, j);
  }

  lemma LiveBlockStays(m: seq<nat>, bs: seq<Block>, m': seq<nat>, cs: seq<Block>, k: nat)
    requires LiveKept(m, bs, m', cs, |bs|) && k < |bs| && !bs[k].free
    ensures bs[k] in cs && PayloadKept(m, m', bs[k])
  {
  }

  lemma LiveBlockStaysBut(m: seq<nat>, bs: seq<Block>, m': seq<nat>, cs: seq<Block>, but: nat, j: nat)
    requires LiveKept(m, bs, m', cs, but) && j < |bs| && j != but && !bs[j].free
    ensures bs[j] in cs && PayloadKept(m, m', bs[j])
  {
  }

  /** Two blocks of a list have disjoint payloads. */
  lemma PayloadsApart(bs: seq<Block>, i: nat, j: nat)
    requires Tiled(bs) && i < |bs| && j < |bs| && i != j
    ensures End(bs[i]) <= bs[j].at || End(bs[j]) <= bs[i].at
  {
    if i < j {
      Ordered(bs, i, j);
    } else {
      Ordered(bs, j, i);
    }
  }

  /** Every live block but `a` and `b` is kept. */
  ghost predicate LiveKeptBut2(m: seq<nat>, bs: seq<Block>, m': seq<nat>, bs': seq<Block>, a: nat, b: nat) {
    forall j {:trigger bs[j]} :: 0 <= j < |bs| && j != a && j != b && !bs[j].free ==>
      bs[j] in bs' && PayloadKept(m, m', bs[j])
  }

  lemma TwoStepsKeep(m: seq<nat>, bs: seq<Block>, m1: seq<nat>, m2: seq<nat>, cs: seq<Block>, k: nat, j: nat)
    requires LiveKept(m, bs, m1, bs, j) && LiveKept(m1, bs, m2, cs, k)
    ensures LiveKeptBut2(m, bs, m2, cs, k, j)
  {
    forall t | 0 <= t < |bs| && t != k && t != j && !bs[t].free
      ensures bs[t] in cs && PayloadKept(m, m2, bs[t])
    {
      assert PayloadKept(m1, m2, bs[t]);
    }
  }

  lemma CopiedBefore(m: seq<nat>, from: Block, m1: seq<nat>, to: Block, m2: seq<nat>)
    requires Copied(m, from, m1, to) && PayloadKept(m1, m2, to)
    ensures Copied(m, from, m2, to)
  {
  }

  lemma CopiedAfter(m: seq<nat>, m1: seq<nat>, from: Block, m2: seq<nat>, to: Block)
    requires PayloadKept(m, m1, from) && Copied(m1, from, m2, to)
    ensures Copied(m, from, m2, to)
  {
  }

  /** Allocation, then a copy into the fresh block `j1` and the release of block `k1`: every
      other live block of the old list is kept. */
  lemma MoveKeepsLive(m: seq<nat>, bs: seq<Block>, m1: seq<nat>, bs1: seq<Block>, m2: seq<nat>, bs2: seq<Block>,
                      k: nat, j1: nat, k1: nat, b: Block)
    requires LiveKept(m, bs, m1, bs1, |bs|) && LiveKeptBut2(m1, bs1, m2, bs2, k1, j1)
    requires k < |bs| && k1 < |bs1| && j1 < |bs1| && bs1[k1] == bs[k] && bs1[j1] == b
    requires forall j :: 0 <= j < |bs| && j != k ==> bs[j] != bs[k]
    requires forall j :: 0 <= j < |bs| && !bs[j].free ==> bs[j] != b
    ensures LiveKept(m, bs, m2, bs2, k)
  {
    forall j | 0 <= j < |bs| && j != k && !bs[j].free
      ensures bs[j] in bs2 && PayloadKept(m, m2, bs[j])
    {
      var t :| 0 <= t < |bs1| && bs1[t] == bs[j];
      assert PayloadKept(m1, m2, bs1[t]);
    }
  }
}
