/** kernel/mm/kheap.c: the first-fit heap working in place on physical memory.  Memory is an
    array of 8-byte words, pointers are byte addresses, and `blocks` is the list that the
    headers, footers and links in memory spell out. */
module Heap {
  import opened Wrappers
  import opened Words
  import opened FrameBits
  import opened Pmm
  import opened HeapBlocks
  import opened HeapWords
  import opened HeapLive

  const PAGE_WORDS: nat := 512
  const OVERHEAD_BYTES: nat := 56
  const HEAP_MIN_SIZE: nat := 16 * PAGE_SIZE

  /** Payload words that a request for `size` bytes asks for. */
  function RequestWords(size: nat): nat {
    AlignUp(size, 16) / 8
  }

  /** Pages that a failed search for `size` bytes asks for. */
  function GrowthPages(size: nat): nat {
    AlignUp(AlignUp(size, 16) + OVERHEAD_BYTES + PAGE_SIZE, PAGE_SIZE) / PAGE_SIZE
  }

  lemma AlignToSixteen(size: nat)
    ensures var bytes := AlignUp(size, 16);
            && bytes % 16 == 0 && bytes % 8 == 0 && size <= bytes < size + 16
            && AlignUp(bytes, 16) == bytes
  {
    var q := (size + 15) / 16;
    assert AlignUp(size, 16) == 16 * q;
    MultipleOfSixteen(q);
  }

  /** A page-aligned address in words and in pages. */
  lemma WordsOfPage(addr: nat)
    requires addr % PAGE_SIZE == 0
    ensures addr / 8 == addr / PAGE_SIZE * PAGE_WORDS && addr / 8 / PAGE_WORDS == addr / PAGE_SIZE
    ensures addr / 8 % PAGE_WORDS == 0 && 8 * (addr / 8) == addr
  {
    var s := addr / PAGE_SIZE;
    assert addr == s * PAGE_SIZE;
    QuotientIsUnique(addr, 8, s * PAGE_WORDS, 0);
    QuotientIsUnique(addr / 8, PAGE_WORDS, s, 0);
  }

  lemma PagesForBytes(bytes: nat)
    requires bytes > 0
    ensures var pages := AlignUp(bytes, PAGE_SIZE) / PAGE_SIZE;
            0 < pages && pages * PAGE_SIZE < bytes + PAGE_SIZE
  {
    var q := (bytes + PAGE_SIZE - 1) / PAGE_SIZE;
    QuotientIsUnique(q * PAGE_SIZE, PAGE_SIZE, q, 0);
  }

  lemma MultipleOfSixteen(q: nat)
    ensures 16 * q % 16 == 0 && 16 * q % 8 == 0 && (16 * q + 15) / 16 == q
  {
    QuotientIsUnique(16 * q, 16, q, 0);
    QuotientIsUnique(16 * q, 8, 2 * q, 0);
    QuotientIsUnique(16 * q + 15, 16, q, 15);
  }

  /** Rounding a request once or twice makes no difference. */
  lemma RequestArithmetic(size: nat)
    ensures var bytes := AlignUp(size, 16);
            && bytes % 16 == 0 && bytes % 8 == 0 && size <= bytes < size + 16
            && RequestWords(size) == bytes / 8 == RequestWords(bytes) && GrowthPages(size) == GrowthPages(bytes)
  {
    AlignToSixteen(size);
    hide AlignUp;
  }

  lemma RequestHolds(size: nat)
    ensures size <= 8 * RequestWords(size)
  {
    AlignToSixteen(size);
  }

  /** What an allocation from block `i` hands out: a live block that holds the request, starts
      at a multiple of 8, and overlaps neither header, payload nor footer of a block that was
      live before. */
  lemma ServedApart(base: seq<Block>, i: nat, size: nat)
    requires Tiled(base) && IsFirstFit(base, RequestWords(size), i)
    ensures var n := RequestWords(size);
            var b := Taken(base[i], n);
            && b in Carve(base, i, n) && !b.free
            && size <= 8 * b.len && Addr(Payload(b)) % 8 == 0
            && forall j :: 0 <= j < |base| && !base[j].free ==>
                 base[j] in Carve(base, i, n) && (End(base[j]) <= b.at || End(b) <= base[j].at)
  {
    var n := RequestWords(size);
    RequestHolds(size);
    hide RequestWords, Tiled, Carve;
    TakenIsInCarve(base, i, n);
    forall j | 0 <= j < |base| && !base[j].free
      ensures base[j] in Carve(base, i, n)
      ensures End(base[j]) <= base[i].at || End(base[i]) <= base[j].at
    {
      CarveKeepsLive(base, i, n, j);
      PayloadsApart(base, i, j);
    }
  }

  /** `ptr` is the payload of a block that was not live before, holds `size` bytes and wastes less
      than 16 bytes of rounding and 88 bytes of a block too small to split; no other block became
      live or ceased to be. */
  ghost predicate Serves(bs: seq<Block>, cs: seq<Block>, size: nat, ptr: nat) {
    exists b :: b in cs && !b.free && ptr == 8 * b.at + 40 && size <= 8 * b.len < size + 16 + 56 + 32
                && b !in Live(bs) && Live(cs) == Live(bs) + {b}
  }

  /** A block fits a request if and only if it is free and 56 bytes larger than the request
      rounded up to 16. */
  lemma FitsInBytes(b: Block, size: nat)
    ensures Fits(b, RequestWords(size)) <==> b.free && 8 * b.len >= AlignUp(size, 16) + 56
  {
    AlignToSixteen(size);
    hide AlignUp;
  }

  /** The allocation is served as callers need it, and tightly: with 88 bytes to spare exactly the
      rounded request is handed out, and all the rest is a free block behind it. */
  lemma CarveServes(was: seq<Block>, base: seq<Block>, i: nat, size: nat)
    requires Tiled(base) && IsFirstFit(base, RequestWords(size), i)
    requires Live(base) == Live(was)
    ensures var cs := Carve(base, i, RequestWords(size));
            && Serves(was, cs, size, Addr(Payload(base[i])))
            && (8 * base[i].len >= AlignUp(size, 16) + 88 ==>
                  var n := AlignUp(size, 16) / 8;
                  && Block(base[i].at, n, false) in cs
                  && Block(base[i].at + 7 + n, base[i].len - n - 7, true) in cs)
            && (8 * base[i].len < AlignUp(size, 16) + 88 ==> Block(base[i].at, base[i].len, false) in cs)
  {
    var n := RequestWords(size);
    AlignToSixteen(size);
    CarveAddsOne(base, i, n);
    CarveIsTight(base, i, n);
    TakenIsInCarve(base, i, n);
    var b := Taken(base[i], n);
    if b in Live(was) {
      var j :| 0 <= j < |base| && base[j] == b;
      StartsAreDistinct(base, i, j);
    }
    hide AlignUp, Carve, Live, Tiled;
  }

  /** How many of the first `i` blocks have an odd number of payload words. */
  function OddLengths(bs: seq<Block>, i: nat): (n: nat)
    requires i <= |bs|
    ensures n <= i
  {
    if i == 0 then 0 else OddLengths(bs, i - 1) + bs[i - 1].len % 2
  }

  /** A payload is 16-byte aligned if and only if its place in the list and the number of odd
      lengths before it add up to an odd number: headers and footers take 7 words a block. */
  lemma PayloadAlignment(bs: seq<Block>, i: nat)
    requires Tiled(bs) && i < |bs| && HeadPtr(bs) % PAGE_SIZE == 0
    ensures Addr(Payload(bs[i])) % 16 == 0 <==> (i + OddLengths(bs, i)) % 2 == 1
  {
    StartParity(bs, i);
    hide Tiled, OddLengths;
    AlignedWord(bs[i].at);
    assert Addr(Payload(bs[i])) == 8 * (bs[i].at + 5);
  }

  lemma AlignedWord(at: nat)
    ensures 8 * (at + 5) % 16 == 0 <==> at % 2 == 1
  {
    if at % 2 == 1 {
      QuotientIsUnique(8 * (at + 5), 16, (at + 5) / 2, 0);
    } else {
      QuotientIsUnique(8 * (at + 5), 16, (at + 5) / 2, 8);
    }
  }

  lemma {:induction false} StartParity(bs: seq<Block>, i: nat)
    requires Tiled(bs) && i < |bs| && HeadPtr(bs) % PAGE_SIZE == 0
    ensures bs[i].at % 2 == (i + OddLengths(bs, i)) % 2
  {
    if i == 0 {
      PageStartIsEven(bs[0].at);
    } else {
      StartParity(bs, i - 1);
      assert Touches(bs, i - 1);
      ParityOfSum(bs[i - 1].at, bs[i - 1].len, i - 1 + OddLengths(bs, i - 1));
    }
  }

  lemma PageStartIsEven(at: nat)
    requires 8 * at % PAGE_SIZE == 0
    ensures at % 2 == 0
  {
    var q := 8 * at / PAGE_SIZE;
    assert 8 * at == PAGE_SIZE * q;
    QuotientIsUnique(at, 2, 256 * q, 0);
  }

  lemma ParityOfSum(at: nat, len: nat, k: nat)
    requires at % 2 == k % 2
    ensures (at + OVERHEAD + len) % 2 == (k + 1 + len % 2) % 2
  {
  }

  /** An instance: the first payload of the heap is 8 bytes off. */
  lemma FirstPayloadInPage(bs: seq<Block>)
    requires Tiled(bs) && bs != [] && HeadPtr(bs) % PAGE_SIZE == 0
    ensures Addr(Payload(bs[0])) % 16 != 0
  {
    PayloadAlignment(bs, 0);
  }

  lemma SameStart(bs: seq<Block>, i: nat, j: nat)
    requires Tiled(bs) && i < |bs| && j < |bs| && bs[i].at == bs[j].at
    ensures i == j
  {
    if i != j {
      StartsAreDistinct(bs, i, j);
    }
  }

  /** The block a move allocates is none of the live blocks there were. */
  lemma MovedApart(bs: seq<Block>, cs: seq<Block>, k: nat, base: seq<Block>, i: nat, n: nat)
    requires Tiled(bs) && Tiled(cs) && k < |bs| && !bs[k].free && bs[k] in cs
    requires |base| >= |bs| && base[..|bs|] == bs && IsFirstFit(base, n, i) && cs == Carve(base, i, n)
    requires Taken(base[i], n) in cs
    requires |base| == |bs| || (|base| == |bs| + 1 && bs != [] && base[|bs|].at == RegionEnd(bs))
    ensures forall j :: 0 <= j < |bs| && !bs[j].free ==> bs[j] != Taken(base[i], n)
    ensures forall j :: 0 <= j < |bs| && j != k ==> bs[j] != bs[k]
  {
    forall j | 0 <= j < |bs|
      ensures j != k ==> bs[j] != bs[k]
      ensures !bs[j].free ==> bs[j] != Taken(base[i], n)
    {
      assert base[j] == bs[j];
      if j != k {
        StartsAreDistinct(bs, j, k);
      }
      if i < |bs| && j != i {
        assert base[i] == bs[i];
        StartsAreDistinct(bs, j, i);
      }
      if i == |bs| && j < |bs| - 1 {
        Ordered(bs, j, |bs| - 1);
      }
    }
  }

  lemma OneBlockRegion(m: seq<nat>, m': seq<nat>, b: Block)
    requires |m'| == |m| && forall w {:trigger m'[w]} :: 0 <= w < |m| && !(b.at <= w < End(b)) ==> m'[w] == m[w]
    ensures RegionOnly(m, m', Addr(b.at), 8 * Total([b]))
  {
    TotalOfOne(b);
  }

  lemma LiveKeptBut(m: seq<nat>, bs: seq<Block>, k: nat)
    ensures LiveKept(m, bs, m, bs, k)
  {
  }

  /** The pages asked for after a failed search hold the request with room to spare. */
  lemma GrowthSuffices(bytes: nat, at: nat)
    requires bytes % 16 == 0
    ensures var wanted := bytes + OVERHEAD_BYTES + PAGE_SIZE;
            && AlignUp(wanted, PAGE_SIZE) / PAGE_SIZE == GrowthPages(bytes) > 0
            && RequestWords(bytes) == bytes / 8
            && Fits(PagesBlock(at, GrowthPages(bytes)), bytes / 8)
  {
    assert AlignUp(bytes, 16) == bytes;
  }

  /** They hold the rounded request, its overhead and one page more, and less than a further page
      is asked for. */
  lemma GrowthIsTight(size: nat)
    ensures AlignUp(size, 16) + 56 + 4096 <= GrowthPages(size) * 4096 < AlignUp(size, 16) + 56 + 4096 + 4096
  {
    var wanted := AlignUp(size, 16) + OVERHEAD_BYTES + PAGE_SIZE;
    var q := (wanted + PAGE_SIZE - 1) / PAGE_SIZE;
    QuotientIsUnique(q * PAGE_SIZE, PAGE_SIZE, q, 0);
    hide AlignUp;
    assert q * 4096 <= wanted + 4095 < q * 4096 + 4096;
  }

  /** Pages that `kheap_init` asks for. */
  function InitialPages(size: nat): nat {
    AlignUp(if HEAP_MIN_SIZE < size then HEAP_MIN_SIZE else size, PAGE_SIZE) / PAGE_SIZE
  }

  lemma InitialIsTight(size: nat)
    ensures size >= 0x1_0000 ==> InitialPages(size) == 16
    ensures size <= 0x1_0000 ==> size <= InitialPages(size) * 4096 < size + 4096
  {
    var wanted := if HEAP_MIN_SIZE < size then HEAP_MIN_SIZE else size;
    var q := (wanted + PAGE_SIZE - 1) / PAGE_SIZE;
    QuotientIsUnique(q * PAGE_SIZE, PAGE_SIZE, q, 0);
  }

  /** The free block that `pages` fresh pages at word `at` become. */
  function PagesBlock(at: nat, pages: nat): Block
    requires pages > 0
  {
    Block(at, pages * PAGE_WORDS - OVERHEAD, true)
  }

  class KernelHeap {
    const mem: array<nat>
    const pmm: PhysicalMemory
    var heapHead: nat
    var heapBase: nat
    var heapEnd: nat
    var heapMax: nat
    ghost var blocks: seq<Block>

    constructor (pmm: PhysicalMemory)
      requires pmm.Valid() && pmm.used[0]
      ensures Consistent() && fresh(mem) && this.pmm == pmm && blocks == []
    {
      this.pmm := pmm;
      mem := new nat[MAX_PAGES * PAGE_WORDS];
      heapHead, heapBase, heapEnd, heapMax := 0, 0, 0, 0;
      blocks := [];
    }

    /** Memory spells out the tiled list `blocks`, whose words are exactly the budget spent. */
    ghost predicate Consistent()
      reads this, mem, pmm, pmm.bitmap
    {
      && pmm.Valid() && pmm.used[0]
      && mem.Length == MAX_PAGES * PAGE_WORDS && mem != pmm.bitmap
      && heapHead == HeadPtr(blocks) && heapHead % PAGE_SIZE == 0
      && Rep(mem[..], blocks) && Tiled(blocks)
      && heapBase <= heapEnd <= heapMax
      && 8 * Total(blocks) == heapEnd - heapBase
    }

    /** The bytes of the budget spent so far, which are the bytes of the region. */
    ghost function Extent(): nat
      reads this`heapBase, this`heapEnd
    {
      if heapBase <= heapEnd then heapEnd - heapBase else 0
    }

    /** Between calls there are, besides, no two free neighbours. */
    ghost predicate Valid()
      reads this, mem, pmm, pmm.bitmap
    {
      Consistent() && NoFreeNeighbours(blocks) && blocks != []
    }

    // ---- stores ----

    /** `write_block` */
    method WriteBlock(at: nat, len: nat, free: bool)
      requires 0 < at && at + OVERHEAD + len <= mem.Length
      modifies mem
      ensures BlockOk(mem[..], Block(at, len, free))
      ensures forall w {:trigger mem[w]} ::
                (0 <= w < mem.Length && w != at && w != at + 1 && w != at + 2 &&
                 w != at + HEADER + len && w != at + HEADER + len + 1) ==> mem[w] == old(mem[w])
    {
      mem[at] := Magic(free);
      mem[at + 1] := 8 * len;
      mem[at + 2] := Flag(free);
      mem[at + HEADER + len] := Magic(free);
      mem[at + HEADER + len + 1] := Addr(at);
    }

    /** The two `write_block` calls of a split: both blocks lie in `[cur, hi)`. */
    method WritePair(cur: nat, n: nat, rest: nat)
      requires 0 < cur && cur + OVERHEAD + n + OVERHEAD + rest <= mem.Length
      modifies mem
      ensures var next := cur + OVERHEAD + n;
              && BlockOk(mem[..], Block(cur, n, false)) && BlockOk(mem[..], Block(next, rest, true))
              && mem[cur + 3] == old(mem[cur + 3]) && mem[cur + 4] == old(mem[cur + 4])
              && forall w {:trigger mem[w]} ::
                   (0 <= w < mem.Length && !(cur <= w < next + OVERHEAD + rest)) ==> mem[w] == old(mem[w])
    {
      WriteBlock(cur, n, false);
      WriteBlock(cur + OVERHEAD + n, rest, true);
    }

    /** The four pointer stores that put block `next` behind block `cur`. */
    method LinkBehind(cur: nat, next: nat, ghost far: nat)
      requires cur + 4 < next && next + 4 < mem.Length && mem[cur + 4] == Addr(far)
      requires far != 0 ==> next + 4 < far && far + 3 < mem.Length
      modifies mem
      ensures mem[next + 3] == Addr(cur) && mem[next + 4] == Addr(far) && mem[cur + 4] == Addr(next)
      ensures far != 0 ==> mem[far + 3] == Addr(next)
      ensures forall w {:trigger mem[w]} ::
                (0 <= w < mem.Length && w != next + 3 && w != next + 4 && w != cur + 4 &&
                 (far != 0 ==> w != far + 3)) ==> mem[w] == old(mem[w])
    {
      mem[next + 3] := Addr(cur);
      mem[next + 4] := mem[cur + 4];
      if mem[cur + 4] != 0 {
        mem[mem[cur + 4] / 8 + 3] := Addr(next);
      }
      mem[cur + 4] := Addr(next);
    }

    /** The stores of the splitting branch of `kmalloc` on a block of `x` payload words, which
        `far` follows. */
    method SplitWords(cur: nat, n: nat, ghost x: nat, ghost far: nat)
      requires 0 < cur && cur + OVERHEAD + x <= mem.Length && n + OVERHEAD <= x
      requires mem[cur + 1] == 8 * x && mem[cur + 4] == Addr(far)
      requires far != 0 ==> cur + OVERHEAD + x == far && far + 3 < mem.Length
      modifies mem
      ensures var next := cur + OVERHEAD + n;
              && BlockOk(mem[..], Block(cur, n, false))
              && BlockOk(mem[..], Block(next, x - n - OVERHEAD, true))
              && mem[cur + 3] == old(mem[cur + 3]) && mem[cur + 4] == Addr(next)
              && mem[next + 3] == Addr(cur) && mem[next + 4] == Addr(far)
              && (far != 0 ==> mem[far + 3] == Addr(next))
      ensures forall w {:trigger mem[w]} ::
                (0 <= w < mem.Length && !(cur <= w < cur + OVERHEAD + x) && (far != 0 ==> w != far + 3)) ==>
                  mem[w] == old(mem[w])
    {
      var oldLen := mem[cur + 1] / 8;
      var next := cur + OVERHEAD + n;
      WritePair(cur, n, oldLen - n - OVERHEAD);
      LinkBehind(cur, next, far);
    }

    /** The splitting branch of `kmalloc`. */
    method SplitBlock(cur: nat, n: nat, ghost i: nat)
      requires i < |blocks| && NodeOk(mem[..], blocks, i)
      requires i + 1 < |blocks| ==> NodeOk(mem[..], blocks, i + 1) && Touches(blocks, i)
      requires cur == blocks[i].at && Splits(blocks[i], n)
      modifies mem
      ensures Splices(old(mem[..]), mem[..], blocks, i, i + 1, [Taken(blocks[i], n), Rest(blocks[i], n)])
    {
      hide Splices, Spliced;
      SplitWords(cur, n, blocks[i].len, if i + 1 < |blocks| then blocks[i + 1].at else 0);
      SplitIsSplice(old(mem[..]), mem[..], blocks, i, n);
    }

    /** The branch of `kmalloc` that hands out the whole block, and the first step of `kfree`:
        only the flag words change. */
    method RewriteBlock(cur: nat, free: bool, ghost i: nat)
      requires i < |blocks| && NodeOk(mem[..], blocks, i)
      requires i + 1 < |blocks| ==> NodeOk(mem[..], blocks, i + 1) && Touches(blocks, i)
      requires cur == blocks[i].at
      modifies mem
      ensures Splices(old(mem[..]), mem[..], blocks, i, i + 1, [blocks[i].(free := free)])
    {
      WriteBlock(cur, mem[cur + 1] / 8, free);
      OneBlockIsSplice(old(mem[..]), mem[..], blocks, i, i + 1, blocks[i].(free := free));
    }

    /** The stores of one coalescing step: block `h` of `x` payload words swallows block `n`
        of `y` payload words, which `far` follows. */
    method Swallow(h: nat, ghost n: nat, ghost x: nat, ghost y: nat, ghost far: nat)
      requires n == h + OVERHEAD + x && n + OVERHEAD + y <= mem.Length
      requires mem[h + 1] == 8 * x && mem[n + 1] == 8 * y && mem[h + 4] == Addr(n) && mem[n + 4] == Addr(far)
      requires far != 0 ==> n + OVERHEAD + y == far && far + 3 < mem.Length
      modifies mem
      ensures mem[h + 1] == 8 * (x + OVERHEAD + y) && mem[h + 4] == Addr(far)
      ensures mem[n + HEADER + y + 1] == Addr(h)
      ensures far != 0 ==> mem[far + 3] == Addr(h)
      ensures forall w {:trigger mem[w]} ::
                (0 <= w < mem.Length && w != h + 1 && w != h + 4 && w != n + HEADER + y + 1 &&
                 (far != 0 ==> w != far + 3)) ==> mem[w] == old(mem[w])
    {
      var next := mem[h + 4] / 8;
      mem[h + 1] := mem[h + 1] + OVERHEAD_BYTES + mem[next + 1];
      mem[h + 4] := mem[next + 4];
      if mem[next + 4] != 0 {
        mem[mem[next + 4] / 8 + 3] := Addr(h);
      }
      mem[h + HEADER + mem[h + 1] / 8 + 1] := Addr(h);
    }

    /** One coalescing step of `kfree`: block `h` swallows its list neighbour. */
    method Coalesce(h: nat, ghost i: nat)
      requires i + 1 < |blocks| && h == blocks[i].at
      requires NodeOk(mem[..], blocks, i) && NodeOk(mem[..], blocks, i + 1) && Touches(blocks, i)
      requires i + 2 < |blocks| ==> NodeOk(mem[..], blocks, i + 2) && Touches(blocks, i + 1)
      requires blocks[i].free && blocks[i + 1].free
      modifies mem
      ensures Splices(old(mem[..]), mem[..], blocks, i, i + 2, [Merge(blocks, i)[i]])
      ensures mem[h] == old(mem[h]) && mem[blocks[i + 1].at] == old(mem[blocks[i + 1].at])
    {
      hide Splices, Spliced, Merge;
      MergeAt(blocks, i, i);
      ghost var far := if i + 2 < |blocks| then blocks[i + 2].at else 0;
      Swallow(h, blocks[i + 1].at, blocks[i].len, blocks[i + 1].len, far);
      OneBlockIsSplice(old(mem[..]), mem[..], blocks, i, i + 2, Merge(blocks, i)[i]);
    }

    // ---- allocation ----

    /** The body of the first-fit search's hit: block `i` is allocated for `n` words. */
    method TakeBlock(cur: nat, n: nat, ghost i: nat)
      requires Consistent() && i < |blocks| && cur == blocks[i].at && Fits(blocks[i], n)
      modifies mem, this`blocks
      ensures Consistent() && blocks == Carve(old(blocks), i, n)
      ensures LiveKept(old(mem[..]), old(blocks), mem[..], blocks, i)
      ensures RegionOnly(old(mem[..]), mem[..], heapHead, Extent())
    {
      hide Rep, Tiled, Total, PhysicalMemory.Valid, Splices, Carve, LiveKept, RegionOnly;
      RepAt(mem[..], blocks, i);
      if mem[cur + 1] >= 8 * n + OVERHEAD_BYTES + 32 {
        SplitBlock(cur, n, i);
      } else {
        RewriteBlock(cur, false, i);
      }
      CarveInMemory(old(mem[..]), mem[..], blocks, i, n);
      blocks := Carve(blocks, i, n);
    }

    /** The last block, found by following the links. */
    method LastBlock() returns (cur: nat)
      requires blocks != [] && Rep(mem[..], blocks) && Tiled(blocks) && heapHead == HeadPtr(blocks)
      ensures cur == blocks[|blocks| - 1].at
    {
      hide Rep, Tiled;
      RepAt(mem[..], blocks, 0);
      cur := heapHead / 8;
      ghost var i := 0;
      while mem[cur + 4] != 0
        invariant i < |blocks| && cur == blocks[i].at && NodeOk(mem[..], blocks, i)
        decreases |blocks| - i
      {
        cur := mem[cur + 4] / 8;
        i := i + 1;
        RepAt(mem[..], blocks, i);
      }
      RepAt(mem[..], blocks, i);
    }

    /** A free block without neighbours. */
    method WriteUnlinked(at: nat, len: nat)
      requires 0 < at && at + OVERHEAD + len <= mem.Length
      modifies mem
      ensures BlockOk(mem[..], Block(at, len, true)) && mem[at + 3] == 0 && mem[at + 4] == 0
      ensures forall w {:trigger mem[w]} ::
                (0 <= w < mem.Length && !(at <= w < at + OVERHEAD + len)) ==> mem[w] == old(mem[w])
    {
      WriteBlock(at, len, true);
      mem[at + 3] := 0;
      mem[at + 4] := 0;
    }

    /** The same behind the block at `last`. */
    method WriteBehind(last: nat, at: nat, len: nat)
      requires last + 4 < at && at + OVERHEAD + len <= mem.Length
      modifies mem
      ensures BlockOk(mem[..], Block(at, len, true))
      ensures AgreeOutside(old(mem[..]), mem[..], at, at + OVERHEAD + len, last + 4)
      ensures mem[at + 3] == Addr(last) && mem[at + 4] == 0 && mem[last + 4] == Addr(at)
    {
      WriteUnlinked(at, len);
      mem[last + 4] := Addr(at);
      mem[at + 3] := Addr(last);
    }

    /** Fresh pages at word `at` become the last block of the list. */
    method AppendBlock(at: nat, pages: nat)
      requires Rep(mem[..], blocks) && Tiled(blocks) && heapHead == HeadPtr(blocks)
      requires 0 < at && 0 < pages && at + pages * PAGE_WORDS <= mem.Length
      requires blocks != [] ==> at == RegionEnd(blocks)
      modifies mem, this`heapHead, this`blocks
      ensures Rep(mem[..], blocks) && Tiled(blocks) && heapHead == HeadPtr(blocks)
      ensures blocks == old(blocks) + [PagesBlock(at, pages)]
      ensures Total(blocks) == Total(old(blocks)) + pages * PAGE_WORDS
      ensures forall j :: 0 <= j < |old(blocks)| ==> PayloadKept(old(mem[..]), mem[..], old(blocks)[j])
      ensures RegionOnly(old(mem[..]), mem[..], heapHead, 8 * Total(blocks))
      ensures old(blocks) != [] ==> heapHead == old(heapHead)
    {
      hide Rep, Tiled, Total, RegionOnly;
      ghost var b := PagesBlock(at, pages);
      TotalOfConcat(blocks, [b]);
      TotalOfOne(b);
      ghost var m := mem[..];
      if heapHead == 0 {
        if blocks != [] {
          RepAt(m, blocks, 0);
          assert false;
        }
        WriteUnlinked(at, pages * PAGE_WORDS - OVERHEAD);
        heapHead := Addr(at);
        FirstBlockRep(mem[..], b);
        OneBlockRegion(m, mem[..], b);
      } else {
        var last := LastBlock();
        RepAt(m, blocks, |blocks| - 1);
        WriteBehind(last, at, pages * PAGE_WORDS - OVERHEAD);
        AppendKeepsRep(m, mem[..], blocks, b);
        AppendInRegion(m, mem[..], blocks, b);
        GrowKeeps(blocks, b);
      }
      assert blocks == [] ==> blocks + [b] == [b];
      blocks := blocks + [b];
    }

    /** `heap_expand`: takes pages first, refuses beyond the budget (keeping the pages), or
        appends them as one free block.  The pages must continue the region, because the
        code never compares addresses. */
    method HeapExpand(bytesNeeded: nat) returns (r: Outcome<bool>)
      requires Consistent() && bytesNeeded > 0
      requires heapEnd + bytesNeeded + 2 * PAGE_SIZE <= WORD_LIMIT
      requires blocks != [] ==> Continues(AlignUp(bytesNeeded, PAGE_SIZE) / PAGE_SIZE)
      modifies this, mem, pmm, pmm.bitmap
      ensures Consistent()
      ensures heapBase == old(heapBase) && heapMax == old(heapMax)
      ensures var pages := AlignUp(bytesNeeded, PAGE_SIZE) / PAGE_SIZE;
              && (r.Panicked? <==> !HasRun(old(pmm.used), pages))
              && (r.Returned? ==> pmm.freePages == old(pmm.freePages) - pages)
              && (r.Returned? && r.value ==>
                    && heapEnd == old(heapEnd) + pages * PAGE_SIZE
                    && |blocks| == |old(blocks)| + 1 && blocks[..|old(blocks)|] == old(blocks)
                    && blocks[|old(blocks)|].len == pages * PAGE_WORDS - OVERHEAD && blocks[|old(blocks)|].free
                    && IsRun(old(pmm.used), blocks[|old(blocks)|].at / PAGE_WORDS, pages)
                    && blocks[|old(blocks)|].at % PAGE_WORDS == 0
                    && (old(blocks) != [] ==> blocks[|old(blocks)|].at == RegionEnd(old(blocks)))
                    && (forall j :: 0 <= j < |old(blocks)| ==> PayloadKept(old(mem[..]), mem[..], old(blocks)[j])))
              && (r.Returned? && !r.value <==>
                    HasRun(old(pmm.used), pages) && old(heapEnd) + pages * PAGE_SIZE > heapMax)
      ensures r.Panicked? || !r.value ==>
                mem[..] == old(mem[..]) && blocks == old(blocks) && heapEnd == old(heapEnd) && heapHead == old(heapHead)
      ensures RegionOnly(old(mem[..]), mem[..], heapHead, Extent())
      ensures old(blocks) != [] ==> heapHead == old(heapHead)
    {
      hide Rep, Tiled, Total, PhysicalMemory.Valid, RegionOnly, IsRun, HasRun, AlignUp, Continues;
      NothingOutside(mem[..], heapHead, Extent());
      var pages := AlignUp(bytesNeeded, PAGE_SIZE) / PAGE_SIZE;
      PagesForBytes(bytesNeeded);
      var phys := PagesFor(pages);
      assert mem[..] == old(mem[..]);
      if phys.Panicked? {
        return Panicked;
      }
      var newEnd := heapEnd + pages * PAGE_SIZE;
      if newEnd > heapMax {
        return Returned(false);
      }
      AppendBlock(phys.value / 8, pages);
      heapEnd := newEnd;
      r := Returned(true);
    }

    /** The pages that `heap_expand` takes, as words. */
    method PagesFor(pages: nat) returns (r: Outcome<nat>)
      requires pmm.Valid() && pmm.used[0] && mem.Length == MAX_PAGES * PAGE_WORDS && pages > 0
      requires blocks != [] ==> Continues(pages)
      modifies pmm, pmm.bitmap
      ensures pmm.Valid() && pmm.used[0]
      ensures r.Panicked? <==> !HasRun(old(pmm.used), pages)
      ensures r.Returned? ==>
                && pmm.freePages == old(pmm.freePages) - pages
                && r.value / 8 / PAGE_WORDS * PAGE_WORDS == r.value / 8 && r.value / 8 % PAGE_WORDS == 0
                && 8 * (r.value / 8) % PAGE_SIZE == 0
                && IsRun(old(pmm.used), r.value / 8 / PAGE_WORDS, pages)
                && 0 < r.value / 8 && r.value / 8 + pages * PAGE_WORDS <= mem.Length
                && (blocks != [] && heapEnd + pages * PAGE_SIZE <= heapMax ==> r.value / 8 == RegionEnd(blocks))
    {
      hide PhysicalMemory.Mirrored, FreeCount, AllUsedBelow;
      r := pmm.AllocPages(pages);
      if r.Returned? {
        WordsOfPage(r.value);
      }
    }

    /** The next run of `pages` free frames, if it is within the budget, starts where the last
        block ends. */
    ghost predicate Continues(pages: nat)
      reads this, pmm
      requires blocks != []
    {
      && pages > 1
      && (heapEnd + pages * PAGE_SIZE <= heapMax ==>
            forall s: nat :: IsLowestRun(pmm.used, s, pages) ==> s * PAGE_WORDS == RegionEnd(blocks))
    }

    /** `kheap_init` */
    method KheapInit(start: nat, size: nat) returns (r: Outcome<()>)
      requires Consistent() && blocks == [] && size > 0
      requires start + size + HEAP_MIN_SIZE + 2 * PAGE_SIZE <= WORD_LIMIT
      modifies this, mem, pmm, pmm.bitmap
      ensures r.Panicked? <==> !HasRun(old(pmm.used), InitialPages(size)) || InitialPages(size) * PAGE_SIZE > size
      ensures r.Returned? ==>
                && Valid() && heapBase == start && heapMax == start + size
                && |blocks| == 1 && blocks[0].free && blocks[0].len == InitialPages(size) * PAGE_WORDS - OVERHEAD
    {
      hide Rep, Tiled, Total, PhysicalMemory.Mirrored, FreeCount;
      RepOfNothing(mem[..]);
      heapBase, heapEnd, heapMax := start, start, start + size;
      var initial := if HEAP_MIN_SIZE < size then HEAP_MIN_SIZE else size;
      var ok := HeapExpand(initial);
      if ok.Returned? && ok.value {
        r := Returned(());
      } else {
        r := Panicked;
      }
    }

    /** The first-fit search of `kmalloc`. */
    method FindFit(bytes: nat) returns (cur: nat, ghost i: nat)
      requires Consistent() && bytes % 8 == 0
      ensures cur == 0 ==> NoFit(blocks, bytes / 8)
      ensures cur != 0 ==> IsFirstFit(blocks, bytes / 8, i) && cur / 8 == blocks[i].at
    {
      hide Rep, Tiled, Total, PhysicalMemory.Valid;
      cur, i := heapHead, 0;
      while cur != 0
        invariant i <= |blocks| && cur == (if i < |blocks| then Addr(blocks[i].at) else 0)
        invariant forall j :: 0 <= j < i ==> !Fits(blocks[j], bytes / 8)
        decreases |blocks| - i
      {
        RepAt(mem[..], blocks, i);
        var at := cur / 8;
        if mem[at + 2] == 1 && mem[at + 1] >= bytes + OVERHEAD_BYTES {
          return;
        }
        cur := mem[at + 4];
        i := i + 1;
      }
      if i < |blocks| {
        RepAt(mem[..], blocks, i);
        assert false;
      }
    }

    /** The hit of the search, with what it means for the list. */
    method TakeFit(cur: nat, n: nat, ghost i: nat)
      requires Consistent() && IsFirstFit(blocks, n, i) && AlmostSeparated(blocks, n) && cur == blocks[i].at
      modifies mem, this`blocks
      ensures Valid() && blocks == Carve(old(blocks), i, n)
      ensures LiveKept(old(mem[..]), old(blocks), mem[..], blocks, |old(blocks)|)
      ensures RegionOnly(old(mem[..]), mem[..], heapHead, Extent())
    {
      hide Rep, Tiled, Total, PhysicalMemory.Valid, LiveKept, AlmostSeparated, NoFreeNeighbours, Carve, RegionOnly;
      TakeBlock(cur, n, i);
      CarveRestores(old(blocks), i, n);
      LiveKeptButFree(old(mem[..]), old(blocks), mem[..], blocks, i);
    }

    /** `kmalloc`: the first block that fits is carved; when none fits the heap grows by one
        free block and the retry carves exactly that block; NULL for a nonzero size means
        that nothing fitted and the budget refused to grow. */
    method Kmalloc(size: nat) returns (r: Outcome<nat>, ghost base: seq<Block>, ghost i: nat)
      requires Consistent() && blocks != [] && AlmostSeparated(blocks, RequestWords(size))
      requires size + 16 <= WORD_LIMIT
      requires size > 0 && NoFit(blocks, RequestWords(size)) ==>
                 heapEnd + size + 4 * PAGE_SIZE <= WORD_LIMIT && Continues(GrowthPages(size))
      modifies this, mem, pmm, pmm.bitmap
      ensures heapBase == old(heapBase) && heapMax == old(heapMax)
      ensures size == 0 ==>
                && r == Returned(0) && Consistent() && blocks == old(blocks) && mem[..] == old(mem[..])
                && pmm.used == old(pmm.used)
      ensures size > 0 ==> Valid()
      ensures size > 0 ==> (r.Panicked? <==>
                NoFit(old(blocks), RequestWords(size)) && !HasRun(old(pmm.used), GrowthPages(size)))
      ensures size > 0 ==> (r == Returned(0) <==>
                && NoFit(old(blocks), RequestWords(size)) && HasRun(old(pmm.used), GrowthPages(size))
                && old(heapEnd) + GrowthPages(size) * PAGE_SIZE > heapMax)
      ensures r.Panicked? || r == Returned(0) ==> blocks == old(blocks) && mem[..] == old(mem[..])
      ensures size > 0 && r == Returned(0) ==> pmm.freePages == old(pmm.freePages) - GrowthPages(size)
      ensures r.Returned? && r.value != 0 ==>
                && (!NoFit(old(blocks), RequestWords(size)) ==> base == old(blocks) && pmm.used == old(pmm.used))
                && (NoFit(old(blocks), RequestWords(size)) ==>
                      base == old(blocks) + [PagesBlock(RegionEnd(old(blocks)), GrowthPages(size))])
                && IsFirstFit(base, RequestWords(size), i)
                && blocks == Carve(base, i, RequestWords(size))
                && r.value == Addr(Payload(base[i]))
                && Serves(old(blocks), blocks, size, r.value)
      ensures LiveKept(old(mem[..]), old(blocks), mem[..], blocks, |old(blocks)|)
      decreases if NoFit(blocks, RequestWords(size)) then 1 else 0
      ensures RegionOnly(old(mem[..]), mem[..], heapHead, Extent())
      ensures heapHead == old(heapHead) && heapEnd >= old(heapEnd)
    {
      hide Rep, Tiled, Total, PhysicalMemory.Valid, FreeCount, LiveKept, AlmostSeparated, NoFreeNeighbours, Carve,
           HasRun, AlignUp, RequestWords, GrowthPages, Continues, NoFit, IsLowestRun, RegionOnly, Serves;
      base, i := blocks, 0;
      LiveKeptAlways(mem[..], blocks);
      NothingOutside(mem[..], heapHead, Extent());
      RequestArithmetic(size);
      if size == 0 {
        r := Returned(0);
        return;
      }
      var bytes := AlignUp(size, 16);
      var n := bytes / 8;
      var cur;
      cur, i := FindFit(bytes);
      if cur != 0 {
        FitRefutesNoFit(blocks, n, i);
        CarveServes(blocks, blocks, i, size);
        TakeFit(cur / 8, n, i);
        r := Returned(Addr(cur / 8 + HEADER));
        return;
      }
      SeparatedIsAlmost(blocks, n);
      ghost var was := blocks;
      r, base, i := GrowAndRetry(bytes);
      if r.Returned? && r.value != 0 {
        GrownServes(was, PagesBlock(RegionEnd(was), GrowthPages(size)), i, size);
      }
    }

    static lemma GrownServes(was: seq<Block>, b: Block, i: nat, size: nat)
      requires Tiled(was) && was != [] && b.free && b.at == RegionEnd(was)
      requires IsFirstFit(was + [b], RequestWords(size), i)
      ensures Serves(was, Carve(was + [b], i, RequestWords(size)), size, Addr(Payload((was + [b])[i])))
    {
      hide Serves, RequestWords, Carve;
      GrowKeeps(was, b);
      GrowthIsNotLive(was, b);
      CarveServes(was, was + [b], i, size);
    }

    /** The tail of `kmalloc` when the search finds nothing. */
    method GrowAndRetry(bytes: nat) returns (r: Outcome<nat>, ghost base: seq<Block>, ghost i: nat)
      requires Valid() && bytes > 0 && bytes % 16 == 0 && NoFit(blocks, bytes / 8)
      requires heapEnd + bytes + 4 * PAGE_SIZE <= WORD_LIMIT + 16
      requires Continues(GrowthPages(bytes))
      modifies this, mem, pmm, pmm.bitmap
      ensures Valid()
      ensures heapBase == old(heapBase) && heapMax == old(heapMax)
      ensures r.Panicked? <==> !HasRun(old(pmm.used), GrowthPages(bytes))
      ensures r == Returned(0) ==> pmm.freePages == old(pmm.freePages) - GrowthPages(bytes)
      ensures r == Returned(0) <==>
                && HasRun(old(pmm.used), GrowthPages(bytes))
                && old(heapEnd) + GrowthPages(bytes) * PAGE_SIZE > heapMax
      ensures r.Panicked? || r == Returned(0) ==> blocks == old(blocks) && mem[..] == old(mem[..])
      ensures r.Returned? && r.value != 0 ==>
                && base == old(blocks) + [PagesBlock(RegionEnd(old(blocks)), GrowthPages(bytes))]
                && IsFirstFit(base, bytes / 8, i)
                && blocks == Carve(base, i, bytes / 8)
                && r.value == Addr(Payload(base[i]))
      ensures LiveKept(old(mem[..]), old(blocks), mem[..], blocks, |old(blocks)|)
      decreases 1, 0
      ensures RegionOnly(old(mem[..]), mem[..], heapHead, Extent())
      ensures heapHead == old(heapHead) && heapEnd >= old(heapEnd)
    {
      hide Rep, Tiled, Total, PhysicalMemory.Valid, FreeCount, LiveKept, AlmostSeparated, NoFreeNeighbours, Carve,
           HasRun, AlignUp, RequestWords, GrowthPages, Continues, NoFit, Fits, IsLowestRun, RegionOnly;
      base, i := blocks, 0;
      LiveKeptAlways(mem[..], blocks);
      NothingOutside(mem[..], heapHead, Extent());
      GrowthSuffices(bytes, RegionEnd(blocks));
      var grown := HeapExpand(bytes + OVERHEAD_BYTES + PAGE_SIZE);
      if grown.Panicked? {
        r := Panicked;
      } else if !grown.value {
        r := Returned(0);
      } else {
        ghost var was, m, b := old(blocks), mem[..], blocks[|old(blocks)|];
        assert blocks == was + [b] && b == PagesBlock(RegionEnd(was), GrowthPages(bytes));
        FitRefutesNoFit(blocks, bytes / 8, |was|);
        GrownBlockIsFirstFit(was, b, bytes / 8);
        GrowAlmostSeparates(was, b, bytes / 8);
        ghost var head, size := heapHead, Extent();
        r, base, i := Kmalloc(bytes);
        RegionTwice(old(mem[..]), m, mem[..], head, size, Extent());
        LiveKeptThroughGrowth(old(mem[..]), was, m, b, mem[..], blocks);
      }
    }

    // ---- release ----

    /** The header of the block at `h` is marked free. */
    method MarkFree(h: nat, ghost i: nat)
      requires Consistent() && i < |blocks| && h == blocks[i].at
      modifies mem, this`blocks
      ensures Consistent() && blocks == old(blocks)[i := old(blocks)[i].(free := true)]
      ensures h < mem.Length && mem[h] == HEAP_MAGIC_FREE
      ensures LiveKept(old(mem[..]), old(blocks), mem[..], blocks, i)
      ensures RegionOnly(old(mem[..]), mem[..], heapHead, Extent())
    {
      hide Rep, Tiled, Total, PhysicalMemory.Valid, Splices, LiveKept, RegionOnly;
      RepAt(mem[..], blocks, i);
      RewriteBlock(h, true, i);
      FreeInMemory(old(mem[..]), mem[..], blocks, i);
      blocks := blocks[i := blocks[i].(free := true)];
      RepAt(mem[..], blocks, i);
    }

    /** "Coalesce with next block" */
    method MergeWithNext(h: nat, ghost i: nat)
      requires Consistent() && i < |blocks| && h == blocks[i].at && blocks[i].free
      modifies mem, this`blocks
      ensures Consistent() && blocks == MergeNext(old(blocks), i) && h < mem.Length && mem[h] == old(mem[h])
      ensures LiveKept(old(mem[..]), old(blocks), mem[..], blocks, |old(blocks)|)
      ensures RegionOnly(old(mem[..]), mem[..], heapHead, Extent())
    {
      hide Rep, Tiled, Total, PhysicalMemory.Valid, Splices, LiveKept, Merge, RegionOnly;
      NothingOutside(mem[..], heapHead, Extent());
      LiveKeptAlways(mem[..], blocks);
      RepAt(mem[..], blocks, i);
      if mem[h + 4] != 0 && mem[mem[h + 4] / 8 + 2] == 1 {
        Coalesce(h, i);
        MergeInMemory(old(mem[..]), mem[..], blocks, i);
        blocks := Merge(blocks, i);
      }
    }

    /** "Coalesce with prev block" */
    method MergeWithPrev(h: nat, ghost i: nat)
      requires Consistent() && i < |blocks| && h == blocks[i].at && blocks[i].free
      modifies mem, this`blocks
      ensures Consistent() && blocks == MergePrev(old(blocks), i) && h < mem.Length && mem[h] == old(mem[h])
      ensures LiveKept(old(mem[..]), old(blocks), mem[..], blocks, |old(blocks)|)
      ensures RegionOnly(old(mem[..]), mem[..], heapHead, Extent())
    {
      hide Rep, Tiled, Total, PhysicalMemory.Valid, Splices, LiveKept, Merge, RegionOnly;
      NothingOutside(mem[..], heapHead, Extent());
      LiveKeptAlways(mem[..], blocks);
      RepAt(mem[..], blocks, i);
      if i > 0 {
        RepAt(mem[..], blocks, i - 1);
      }
      if mem[h + 3] != 0 && mem[mem[h + 3] / 8 + 2] == 1 {
        Coalesce(mem[h + 3] / 8, i - 1);
        MergeInMemory(old(mem[..]), mem[..], blocks, i - 1);
        blocks := Merge(blocks, i - 1);
      }
    }

    /** `kfree` of the payload of a block, of NULL, or of any address whose header word does
        not carry the "used" magic.  Freeing twice is refused. */
    method Kfree(ptr: nat) returns (ghost i: nat)
      requires Valid() && MayFree(ptr)
      modifies mem, this`blocks
      ensures Valid() && i <= |old(blocks)|
      ensures i < |old(blocks)| <==> exists j :: 0 <= j < |old(blocks)| && IsLiveAt(old(blocks)[j], ptr)
      ensures i < |old(blocks)| ==>
                && IsLiveAt(old(blocks)[i], ptr)
                && Live(blocks) == Live(old(blocks)) - {old(blocks)[i]}
                && FreeSpan(blocks, old(blocks)[i].at, End(old(blocks)[i]))
                && (forall n: nat :: n + 7 <= old(blocks)[i].len ==> !NoFit(blocks, n))
                && blocks == Released(old(blocks), i)
                && LiveKept(old(mem[..]), old(blocks), mem[..], blocks, i)
      ensures MayFree(ptr) && forall j :: 0 <= j < |blocks| ==> !IsLiveAt(blocks[j], ptr)
      ensures i == |old(blocks)| ==> blocks == old(blocks) && mem[..] == old(mem[..])
      ensures RegionOnly(old(mem[..]), mem[..], heapHead, Extent())
    {
      hide Rep, Tiled, Total, PhysicalMemory.Valid, LiveKept, Released, NoFreeNeighbours, RegionOnly, Live, FreeSpan, NoFit;
      NothingOutside(mem[..], heapHead, Extent());
      i := FindLive(ptr);
      if ptr == 0 {
        return;
      }
      var h := ptr / 8 - HEADER;
      if mem[h] != HEAP_MAGIC_USED {
        return;
      }
      ReleasedFrees(blocks, i);
      FreeLive(h, i);
      SpanServes(blocks, old(blocks)[i]);
      NobodyLiveAt(old(blocks), blocks, i, ptr);
    }

    /** Freeing the same pointer again changes nothing. */
    method FreeTwice(ptr: nat) returns (ghost i: nat)
      requires Valid() && MayFree(ptr)
      modifies mem, this`blocks
      ensures Valid() && i <= |old(blocks)|
      ensures i < |old(blocks)| ==>
                IsLiveAt(old(blocks)[i], ptr) && Live(blocks) == Live(old(blocks)) - {old(blocks)[i]}
      ensures i == |old(blocks)| ==> blocks == old(blocks) && mem[..] == old(mem[..])
    {
      i := Kfree(ptr);
      label Once:
      ghost var j := Kfree(ptr);
      assert blocks == old@Once(blocks) && mem[..] == old@Once(mem[..]);
    }

    static lemma SpanServes(bs: seq<Block>, b: Block)
      requires FreeSpan(bs, b.at, End(b))
      ensures forall n: nat :: n + 7 <= b.len ==> !NoFit(bs, n)
    {
      forall n: nat | n + 7 <= b.len
        ensures !NoFit(bs, n)
      {
        SpanFits(bs, b, n);
      }
    }

    static lemma NobodyLiveAt(bs: seq<Block>, cs: seq<Block>, i: nat, ptr: nat)
      requires Tiled(bs) && i < |bs| && IsLiveAt(bs[i], ptr) && Live(cs) == Live(bs) - {bs[i]}
      ensures forall j :: 0 <= j < |cs| ==> !IsLiveAt(cs[j], ptr)
    {
      NobodyThere(bs, cs, i);
    }

    /** The part of `kfree` behind its magic check. */
    method FreeLive(h: nat, ghost i: nat)
      requires Valid() && i < |blocks| && h == blocks[i].at && !blocks[i].free
      modifies mem, this`blocks
      ensures Valid() && blocks == Released(old(blocks), i) && h < mem.Length && mem[h] == HEAP_MAGIC_FREE
      ensures LiveKept(old(mem[..]), old(blocks), mem[..], blocks, i)
      ensures RegionOnly(old(mem[..]), mem[..], heapHead, Extent())
    {
      hide Rep, Tiled, Total, PhysicalMemory.Valid, LiveKept, Merge, NoFreeNeighbours, RegionOnly;
      ghost var bs, m := blocks, mem[..];
      ReleasedSeparates(bs, i);
      ReleasedIsNotEmpty(bs, i);
      MarkFree(h, i);
      ghost var bs1, m1 := blocks, mem[..];
      MergeWithNext(h, i);
      LiveKeptTwice(m, bs, m1, bs1, mem[..], blocks, i);
      RegionTwice(m, m1, mem[..], heapHead, Extent(), Extent());
      ghost var bs2, m2 := blocks, mem[..];
      MergeWithPrev(h, i);
      LiveKeptTwice(m, bs, m2, bs2, mem[..], blocks, i);
      RegionTwice(m, m2, mem[..], heapHead, Extent(), Extent());
    }

    /** `ptr` is the payload address of the live block `b`. */
    static ghost predicate IsLiveAt(b: Block, ptr: nat) {
      !b.free && ptr == Addr(Payload(b))
    }

    /** What `kfree` may be given: NULL, or a word address above a header in memory which, if
        it looks used, is the header of a block. */
    ghost predicate MayFree(ptr: nat)
      reads this, mem
    {
      ptr == 0 ||
      (&& ptr % 8 == 0 && 8 * HEADER <= ptr < 8 * mem.Length
       && (mem[ptr / 8 - HEADER] == HEAP_MAGIC_USED ==>
             exists j :: 0 <= j < |blocks| && ptr == Addr(Payload(blocks[j]))))
    }

    /** The live block at `ptr`, or the length of the list when there is none. */
    ghost method FindLive(ptr: nat) returns (i: nat)
      requires Valid() && MayFree(ptr)
      ensures i <= |blocks|
      ensures i < |blocks| <==> exists j :: 0 <= j < |blocks| && IsLiveAt(blocks[j], ptr)
      ensures i < |blocks| ==> IsLiveAt(blocks[i], ptr) && ptr / 8 - HEADER == blocks[i].at
      ensures i < |blocks| <==> ptr != 0 && mem[ptr / 8 - HEADER] == HEAP_MAGIC_USED
    {
      hide Rep, Tiled, Total, PhysicalMemory.Valid, NoFreeNeighbours;
      if ptr != 0 && mem[ptr / 8 - HEADER] == HEAP_MAGIC_USED {
        i :| 0 <= i < |blocks| && ptr == Addr(Payload(blocks[i]));
        RepAt(mem[..], blocks, i);
        assert IsLiveAt(blocks[i], ptr);
      } else {
        i := |blocks|;
        forall j | 0 <= j < |blocks|
          ensures !IsLiveAt(blocks[j], ptr)
        {
          RepAt(mem[..], blocks, j);
        }
      }
    }

    // ---- reallocation ----

    /** `memcpy` between two payloads, a word at a time. */
    method CopyWords(dst: nat, src: nat, len: nat)
      requires dst + len <= mem.Length && src + len <= mem.Length
      requires dst + len <= src || src + len <= dst
      modifies mem
      ensures WordsCopied(old(mem[..]), mem[..], dst, src, len)
    {
      for t := 0 to len
        invariant forall w {:trigger mem[w]} :: dst <= w < dst + t ==> mem[w] == old(mem[w - dst + src])
        invariant forall w {:trigger mem[w]} ::
                    (0 <= w < mem.Length && !(dst <= w < dst + t)) ==> mem[w] == old(mem[w])
      {
        mem[dst + t] := mem[src + t];
      }
    }

    /** Whether a request can be served without breaking the contiguity assumption. */
    ghost predicate CanServe(size: nat)
      reads this, pmm
    {
      && blocks != [] && size + 16 <= WORD_LIMIT
      && (size > 0 && NoFit(blocks, RequestWords(size)) ==>
            heapEnd + size + 4 * PAGE_SIZE <= WORD_LIMIT && Continues(GrowthPages(size)))
    }

    /** The tail of `krealloc`: allocate, copy, free the old block. */
    method MoveBlock(ptr: nat, newSize: nat, ghost k: nat) returns (r: Outcome<nat>, ghost b: Block)
      requires Valid() && CanServe(newSize) && newSize > 0
      requires k < |blocks| && IsLiveAt(blocks[k], ptr) && 8 * blocks[k].len < newSize
      modifies this, mem, pmm, pmm.bitmap
      ensures Valid()
      ensures r.Panicked? || r.value == 0 ==> blocks == old(blocks) && mem[..] == old(mem[..])
      ensures r.Returned? && r.value != 0 ==>
                && b in blocks && IsLiveAt(b, r.value) && newSize <= 8 * b.len < newSize + 104
                && b !in Live(old(blocks)) && Live(blocks) == Live(old(blocks)) - {old(blocks)[k]} + {b}
                && FreeSpan(blocks, old(blocks)[k].at, End(old(blocks)[k]))
                && Copied(old(mem[..]), old(blocks)[k], mem[..], b)
      ensures LiveKept(old(mem[..]), old(blocks), mem[..], blocks, k)
      ensures RegionOnly(old(mem[..]), mem[..], heapHead, Extent())
      ensures heapHead == old(heapHead) && heapEnd >= old(heapEnd)
    {
      hide Rep, Tiled, Total, PhysicalMemory.Valid, LiveKept, NoFreeNeighbours, AlmostSeparated, NoFit, Carve, Released,
           RequestWords, GrowthPages, HasRun, RegionOnly, Serves, Live, FreeSpan;
      b := blocks[k];
      ghost var bs, m, n := blocks, mem[..], RequestWords(newSize);
      LiveKeptBut(m, bs, k);
      RepAt(m, bs, k);
      SeparatedIsAlmost(blocks, n);
      ghost var base, i;
      r, base, i := Kmalloc(newSize);
      if r.Panicked? || r.value == 0 {
        return;
      }
      TakenIsInCarve(base, i, n);
      RequestHolds(newSize);
      b := Taken(base[i], n);
      ghost var bs1, m1 := blocks, mem[..];
      ServedIs(bs, bs1, newSize, r.value, b);
      InLive(bs, k);
      ghost var size := Extent();
      LiveBlockStays(m, bs, m1, bs1, k);
      MovedApart(bs, bs1, k, base, i, n);
      ghost var j1 :| 0 <= j1 < |bs1| && bs1[j1] == b;
      ghost var k1 :| 0 <= k1 < |bs1| && bs1[k1] == bs[k];
      CopyThenFree(ptr, r.value, k1, j1);
      RegionTwice(m, m1, mem[..], heapHead, size, Extent());
      CopiedAfter(m, m1, bs[k], mem[..], b);
      MoveKeepsLive(m, bs, m1, bs1, mem[..], blocks, k, j1, k1, b);
    }

    static lemma ServedIs(bs: seq<Block>, cs: seq<Block>, size: nat, ptr: nat, b: Block)
      requires Tiled(cs) && b in cs && IsLiveAt(b, ptr) && Serves(bs, cs, size, ptr)
      ensures b !in Live(bs) && Live(cs) == Live(bs) + {b} && size <= 8 * b.len < size + 104
    {
      var j :| 0 <= j < |cs| && cs[j] == b;
      var c :| c in cs && !c.free && ptr == 8 * c.at + 40 && size <= 8 * c.len < size + 16 + 56 + 32
               && c !in Live(bs) && Live(cs) == Live(bs) + {c};
      var k :| 0 <= k < |cs| && cs[k] == c;
      SameStart(cs, j, k);
    }

    static lemma InLive(bs: seq<Block>, k: nat)
      requires k < |bs| && !bs[k].free
      ensures bs[k] in Live(bs)
    {
    }

    /** The copy of live block `k` into live block `j` and the release of `k`. */
    method CopyThenFree(ptr: nat, dst: nat, ghost k: nat, ghost j: nat)
      requires Valid() && k < |blocks| && j < |blocks| && j != k
      requires IsLiveAt(blocks[k], ptr) && IsLiveAt(blocks[j], dst) && blocks[k].len <= blocks[j].len
      modifies mem, this`blocks
      ensures Valid() && old(blocks)[j] in blocks
      ensures Live(blocks) == Live(old(blocks)) - {old(blocks)[k]}
      ensures FreeSpan(blocks, old(blocks)[k].at, End(old(blocks)[k]))
      ensures Copied(old(mem[..]), old(blocks)[k], mem[..], old(blocks)[j])
      ensures LiveKeptBut2(old(mem[..]), old(blocks), mem[..], blocks, k, j)
      ensures RegionOnly(old(mem[..]), mem[..], heapHead, Extent())
    {
      hide Rep, Tiled, Total, PhysicalMemory.Valid, LiveKept, NoFreeNeighbours, Released, LiveKeptBut2, Copied,
           PayloadKept, RegionOnly, Live, FreeSpan;
      ghost var bs, m := blocks, mem[..];
      CopyLive(ptr, dst, k, j);
      ghost var m1 := mem[..];
      HeaderOf(bs[k], ptr);
      ReleasedFrees(bs, k);
      FreeLive(ptr / 8 - HEADER, k);
      RegionTwice(m, m1, mem[..], heapHead, Extent(), Extent());
      LiveBlockStaysBut(m1, bs, mem[..], blocks, k, j);
      CopiedBefore(m, bs[k], m1, bs[j], mem[..]);
      TwoStepsKeep(m, bs, m1, mem[..], blocks, k, j);
    }

    /** `memcpy(new_ptr, ptr, h->size)` */
    method CopyLive(ptr: nat, dst: nat, ghost k: nat, ghost j: nat)
      requires Valid() && k < |blocks| && j < |blocks| && j != k
      requires IsLiveAt(blocks[k], ptr) && IsLiveAt(blocks[j], dst) && blocks[k].len <= blocks[j].len
      modifies mem
      ensures Valid() && Copied(old(mem[..]), blocks[k], mem[..], blocks[j])
      ensures LiveKept(old(mem[..]), blocks, mem[..], blocks, j)
      ensures RegionOnly(old(mem[..]), mem[..], heapHead, Extent())
    {
      hide Rep, Tiled, Total, PhysicalMemory.Valid, LiveKept, NoFreeNeighbours, HeadPtr, RegionOnly, NodeOk, Copied,
           WordsCopied, IsLiveAt;
      ghost var m := mem[..];
      SourceWords(m, blocks, k, ptr);
      SourceWords(m, blocks, j, dst);
      PayloadsApart(blocks, j, k);
      var len := mem[ptr / 8 - HEADER + 1] / 8;
      CopyWords(dst / 8, ptr / 8, len);
      CopyInMemory(m, mem[..], blocks, k, j);
    }

    /** Where the payload of live block `k` starts, and how long its header says it is. */
    static lemma SourceWords(m: seq<nat>, bs: seq<Block>, k: nat, ptr: nat)
      requires Rep(m, bs) && Tiled(bs) && k < |bs| && IsLiveAt(bs[k], ptr)
      ensures ptr / 8 == Payload(bs[k]) && ptr / 8 >= HEADER && End(bs[k]) <= |m|
      ensures m[ptr / 8 - HEADER + 1] / 8 == bs[k].len
    {
      RepAt(m, bs, k);
      QuotientIsUnique(8 * bs[k].len, 8, bs[k].len, 0);
      QuotientIsUnique(8 * Payload(bs[k]), 8, Payload(bs[k]), 0);
    }

    lemma HeaderOf(b: Block, ptr: nat)
      requires IsLiveAt(b, ptr)
      ensures ptr / 8 - HEADER == b.at && ptr / 8 == Payload(b)
    {
    }

    /** `krealloc` of the live block `k` (or of NULL): zero frees it, a small request returns
        it, a large one moves it with all its bytes; NULL for a nonzero size leaves it as it
        was. */
    method Krealloc(ptr: nat, newSize: nat, ghost k: nat) returns (r: Outcome<nat>, ghost b: Block)
      requires Valid() && CanServe(newSize)
      requires ptr != 0 ==> k < |blocks| && IsLiveAt(blocks[k], ptr)
      modifies this, mem, pmm, pmm.bitmap
      ensures Valid()
      ensures ptr != 0 && newSize == 0 ==>
                && r == Returned(0) && blocks == Released(old(blocks), k)
                && Live(blocks) == Live(old(blocks)) - {old(blocks)[k]}
                && FreeSpan(blocks, old(blocks)[k].at, End(old(blocks)[k]))
                && LiveKept(old(mem[..]), old(blocks), mem[..], blocks, k)
      ensures ptr != 0 && 0 < newSize <= 8 * old(blocks)[k].len ==>
                r == Returned(ptr) && blocks == old(blocks) && mem[..] == old(mem[..])
      ensures newSize > 0 && (r.Panicked? || r.value == 0) ==> blocks == old(blocks) && mem[..] == old(mem[..])
      ensures newSize > 0 && r.Returned? && r.value != 0 ==>
                b in blocks && IsLiveAt(b, r.value) && newSize <= 8 * b.len
      ensures newSize > 0 && r.Returned? && r.value != 0 && ptr == 0 ==>
                b !in Live(old(blocks)) && Live(blocks) == Live(old(blocks)) + {b} && 8 * b.len < newSize + 104
      ensures ptr != 0 && newSize > 8 * old(blocks)[k].len && r.Returned? && r.value != 0 ==>
                && b !in Live(old(blocks)) && Live(blocks) == Live(old(blocks)) - {old(blocks)[k]} + {b}
                && 8 * b.len < newSize + 104
                && FreeSpan(blocks, old(blocks)[k].at, End(old(blocks)[k]))
      ensures newSize > 0 && r.Returned? && r.value != 0 && ptr != 0 ==>
                Copied(old(mem[..]), old(blocks)[k], mem[..], b)
      ensures LiveKept(old(mem[..]), old(blocks), mem[..], blocks, if ptr == 0 then |old(blocks)| else k)
      ensures RegionOnly(old(mem[..]), mem[..], heapHead, Extent())
      ensures heapHead == old(heapHead) && heapEnd >= old(heapEnd)
    {
      hide Rep, Tiled, Total, PhysicalMemory.Valid, LiveKept, NoFreeNeighbours, AlmostSeparated, NoFit, Carve, Released,
           RequestWords, GrowthPages, HasRun, RegionOnly, Serves, Live, FreeSpan;
      b := Block(0, 0, true);
      LiveKeptAlways(mem[..], blocks);
      NothingOutside(mem[..], heapHead, Extent());
      SeparatedIsAlmost(blocks, RequestWords(newSize));
      if ptr == 0 {
        ghost var base, i;
        r, base, i := Kmalloc(newSize);
        if r.Returned? && r.value != 0 {
          TakenIsInCarve(base, i, RequestWords(newSize));
          RequestHolds(newSize);
          b := Taken(base[i], RequestWords(newSize));
          ServedIs(old(blocks), blocks, newSize, r.value, b);
        }
        return;
      }
      RepAt(mem[..], blocks, k);
      LiveKeptBut(mem[..], blocks, k);
      if newSize == 0 {
        ghost var i := Kfree(ptr);
        SameStart(old(blocks), i, k);
        return Returned(0), b;
      }
      if mem[ptr / 8 - HEADER + 1] >= newSize {
        return Returned(ptr), blocks[k];
      }
      r, b := MoveBlock(ptr, newSize, k);
    }
  }
}
