/** What the list operations of the heap mean for its callers: which blocks are live, and which
    words can be handed out. */
module HeapLive {
  import opened HeapBlocks

  /** The blocks that callers hold. */
  ghost function Live(bs: seq<Block>): set<Block> {
    set b | b in bs && !b.free
  }

  /** Some free block takes in the words from `lo` up to `hi`. */
  ghost predicate FreeSpan(bs: seq<Block>, lo: nat, hi: nat) {
    exists k :: 0 <= k < |bs| && bs[k].free && bs[k].at <= lo && hi <= End(bs[k])
  }

  // ---- allocation ----

  /** Growing adds no live block. */
  lemma GrowthIsNotLive(bs: seq<Block>, b: Block)
    requires b.free
    ensures Live(bs + [b]) == Live(bs)
  {
  }

  /** Allocating from a free block adds the block handed out to the live ones. */
  lemma CarveAddsOne(bs: seq<Block>, i: nat, n: nat)
    requires i < |bs| && bs[i].free
    ensures Live(Carve(bs, i, n)) == Live(bs) + {Taken(bs[i], n)}
  {
    var cs, b := Carve(bs, i, n), Taken(bs[i], n);
    assert cs[i] == b;
    forall c | c in cs && !c.free
      ensures c in Live(bs) + {b}
    {
    }
    forall c | c in bs && !c.free
      ensures c in cs
    {
      var j :| 0 <= j < |bs| && bs[j] == c;
      CarveKeepsLive(bs, i, n, j);
    }
  }

  /** What is handed out is the rounded request when at least 88 bytes more were free, and then a
      free block with all the rest follows it; otherwise it is the whole block. */
  lemma CarveIsTight(bs: seq<Block>, i: nat, n: nat)
    requires i < |bs| && Fits(bs[i], n)
    ensures var b := Taken(bs[i], n);
            && b.at == bs[i].at && !b.free
            && (8 * bs[i].len >= 8 * n + 88 ==>
                  8 * b.len == 8 * n && Block(b.at + 7 + n, bs[i].len - n - 7, true) in Carve(bs, i, n))
            && (8 * bs[i].len < 8 * n + 88 ==> b.len == bs[i].len)
            && 8 * n <= 8 * b.len < 8 * n + 88
  {
    if Splits(bs[i], n) {
      assert Carve(bs, i, n)[i + 1] == Rest(bs[i], n);
    }
  }

  // ---- release ----

  lemma FreeFlagTakesOne(bs: seq<Block>, i: nat)
    requires Tiled(bs) && i < |bs|
    ensures Live(bs[i := bs[i].(free := true)]) == Live(bs) - {bs[i]}
  {
    var cs := bs[i := bs[i].(free := true)];
    forall b | b in bs && !b.free && b != bs[i]
      ensures b in cs
    {
      var j :| 0 <= j < |bs| && bs[j] == b;
      assert cs[j] == b;
    }
    forall b | b in cs && !b.free
      ensures b in bs && b != bs[i]
    {
      var j :| 0 <= j < |cs| && cs[j] == b;
      StartsAreDistinct(bs, i, j);
    }
  }

  lemma MergeKeepsLive(bs: seq<Block>, i: nat)
    requires i + 1 < |bs| && bs[i].free && bs[i + 1].free
    ensures Live(Merge(bs, i)) == Live(bs)
  {
    var cs := Merge(bs, i);
    forall b | b in bs && !b.free
      ensures b in cs
    {
      var j :| 0 <= j < |bs| && bs[j] == b;
      var k := if j < i then j else j - 1;
      MergeAt(bs, i, k);
      assert cs[k] == b;
    }
    forall b | b in cs && !b.free
      ensures b in bs
    {
      var k :| 0 <= k < |cs| && cs[k] == b;
      MergeAt(bs, i, if k < |bs| - 1 then k else 0);
    }
  }

  lemma MergeKeepsSpan(bs: seq<Block>, i: nat, lo: nat, hi: nat)
    requires Tiled(bs) && i + 1 < |bs| && bs[i].free && bs[i + 1].free && FreeSpan(bs, lo, hi)
    ensures FreeSpan(Merge(bs, i), lo, hi)
  {
    var k :| 0 <= k < |bs| && bs[k].free && bs[k].at <= lo && hi <= End(bs[k]);
    var j := if k <= i then k else k - 1;
    MergeAt(bs, i, j);
    assert Touches(bs, i);
    assert Merge(bs, i)[j].free && Merge(bs, i)[j].at <= lo && hi <= End(Merge(bs, i)[j]);
  }

  /** Freeing a live block takes exactly that block from the live ones, and the words of the block,
      header and footer included, are part of a free block afterwards. */
  lemma ReleasedFrees(bs: seq<Block>, i: nat)
    requires Tiled(bs) && i < |bs| && !bs[i].free
    ensures Live(Released(bs, i)) == Live(bs) - {bs[i]}
    ensures FreeSpan(Released(bs, i), bs[i].at, End(bs[i]))
  {
    hide Tiled, Merge, FreeSpan, Live;
    var freed := bs[i := bs[i].(free := true)];
    var lo, hi := bs[i].at, End(bs[i]);
    FreeFlagTakesOne(bs, i);
    FreeFlagKeepsTiling(bs, i);
    SpanOf(freed, i);
    var merged := MergeNext(freed, i);
    ReleasedIsNotEmpty(bs, i);
    if i + 1 < |freed| && freed[i + 1].free {
      MergeKeepsLive(freed, i);
      MergeKeepsSpan(freed, i, lo, hi);
      MergeKeepsTiling(freed, i);
    }
    if i > 0 && merged[i - 1].free {
      MergeKeepsLive(merged, i - 1);
      MergeKeepsSpan(merged, i - 1, lo, hi);
    }
  }

  lemma SpanOf(bs: seq<Block>, i: nat)
    requires i < |bs| && bs[i].free
    ensures FreeSpan(bs, bs[i].at, End(bs[i]))
  {
  }

  /** Words that a free block takes in can be handed out again: a request that they hold fits. */
  lemma SpanFits(bs: seq<Block>, b: Block, n: nat)
    requires FreeSpan(bs, b.at, End(b)) && n + 7 <= b.len
    ensures !NoFit(bs, n)
  {
    var k :| 0 <= k < |bs| && bs[k].free && bs[k].at <= b.at && End(b) <= End(bs[k]);
    FitRefutesNoFit(bs, n, k);
  }

  /** No live block starts where a block of the list was that is live no more. */
  lemma NobodyThere(bs: seq<Block>, cs: seq<Block>, i: nat)
    requires Tiled(bs) && i < |bs| && Live(cs) <= Live(bs) - {bs[i]}
    ensures forall c :: c in cs && !c.free ==> c.at != bs[i].at
  {
    forall c | c in cs && !c.free
      ensures c.at != bs[i].at
    {
      assert c in Live(cs);
      var j :| 0 <= j < |bs| && bs[j] == c;
      StartsAreDistinct(bs, i, j);
    }
  }
}
