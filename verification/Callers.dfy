/** Physical pages under any run of requests: allocations and releases by callers that release
    only what they hold, mixed with shared memory calls. */
module Callers {
  import opened Wrappers
  import opened Words
  import opened FrameBits
  import opened Pmm
  import opened Ownership
  import opened SharedMemory

  /** What the callers hold, the next segment id, and the pages of each segment. */
  datatype World = World(live: seq<Region>, next: nat, slots: seq<Region>)

  datatype Request = Take(count: nat) | GiveBack(k: nat) | ShmCreate(size: nat) | ShmDestroy(shmid: int)

  datatype Reply = Pages(addr: nat) | Freed | Segment(shmid: int, addr: nat) | Panic

  const NONE: Region := Region(0, 0)

  function All(w: World): seq<Region> {
    w.live + w.slots
  }

  /** The pages in use: the reserved ones and those that somebody holds. */
  ghost function Flags(reserved: set<nat>, w: World): (used: seq<bool>)
    ensures |used| == MAX_PAGES
  {
    seq(MAX_PAGES, p requires 0 <= p < MAX_PAGES => p in reserved || Held(All(w), p))
  }

  predicate Refused(w: World, size: nat) {
    w.next >= SHM_MAX_SEGS || Rounded(size) > SHM_MAX_SIZE || Rounded(size) == 0
  }

  /** `a` is a right answer to `q` when the callers hold what `w` says: pages that nobody holds,
      and a panic only when there is no run of the size asked for. */
  ghost predicate Answers(reserved: set<nat>, w: World, q: Request, a: Reply) {
    var used := Flags(reserved, w);
    match q
    case Take(count) =>
      (match a
       case Pages(addr) =>
         if count == 0 then addr == 0
         else
           && addr % PAGE_SIZE == 0 && IsRun(used, addr / PAGE_SIZE, count)
           && (count > 1 ==> IsLowestRun(used, addr / PAGE_SIZE, count))
       case Panic => count > 0 && !HasRun(used, count)
       case _ => false)
    case GiveBack(_) => a == Freed
    case ShmCreate(size) =>
      if Refused(w, size) then a == Segment(-1, 0)
      else
        (match a
         case Segment(id, addr) =>
           id == w.next && addr > 0 && addr % PAGE_SIZE == 0
           && IsRun(used, addr / PAGE_SIZE, Rounded(size) / PAGE_SIZE)
         case Panic => !HasRun(used, Rounded(size) / PAGE_SIZE)
         case _ => false)
    case ShmDestroy(_) => a == Freed
  }

  /** What is held after `q` was answered by `a`. */
  function Next(w: World, q: Request, a: Reply): World {
    match q
    case Take(count) =>
      if a.Pages? && count > 0 then w.(live := w.live + [Region(a.addr / PAGE_SIZE, count)]) else w
    case GiveBack(k) =>
      if k < |w.live| then w.(live := Without(w.live, k)) else w
    case ShmCreate(size) =>
      if a.Segment? && 0 <= a.shmid < |w.slots|
      then World(w.live, w.next + 1, w.slots[a.shmid := Region(a.addr / PAGE_SIZE, Rounded(size) / PAGE_SIZE)])
      else w
    case ShmDestroy(id) =>
      if 0 <= id < |w.slots| then w.(slots := w.slots[id := NONE]) else w
  }

  function After(w: World, qs: seq<Request>, replies: seq<Reply>): World
    requires |replies| <= |qs|
    decreases |replies|
  {
    if replies == [] then w
    else
      var n := |replies| - 1;
      Next(After(w, qs, replies[..n]), qs[n], replies[n])
  }

  /** Each reply is right in the world that its request meets. */
  ghost predicate Right(reserved: set<nat>, w: World, qs: seq<Request>, replies: seq<Reply>) {
    && |replies| <= |qs|
    && forall i {:trigger replies[i]} :: 0 <= i < |replies| ==>
         Answers(reserved, After(w, qs, replies[..i]), qs[i], replies[i])
  }

  /** Every request is answered, rightly, up to the first panic. */
  ghost predicate Answered(reserved: set<nat>, w: World, qs: seq<Request>, replies: seq<Reply>) {
    && Right(reserved, w, qs, replies)
    && (forall i :: 0 <= i < |replies| - 1 ==> replies[i] != Panic)
    && (|replies| < |qs| ==> replies != [] && replies[|replies| - 1] == Panic)
  }

  lemma OneMoreReply(reserved: set<nat>, w: World, qs: seq<Request>, replies: seq<Reply>, a: Reply)
    requires Right(reserved, w, qs, replies) && |replies| < |qs|
    requires Answers(reserved, After(w, qs, replies), qs[|replies|], a)
    ensures Right(reserved, w, qs, replies + [a])
    ensures After(w, qs, replies + [a]) == Next(After(w, qs, replies), qs[|replies|], a)
  {
    hide Answers, Next;
    var longer := replies + [a];
    assert longer[..|replies|] == replies;
    forall i {:trigger longer[i]} | 0 <= i < |longer|
      ensures Answers(reserved, After(w, qs, longer[..i]), qs[i], longer[i])
    {
      assert longer[..i] == replies[..i];
      if i < |replies| {
        assert longer[i] == replies[i];
      } else {
        assert replies[..i] == replies;
      }
    }
  }

  /** Nobody holds a reserved page or a page of somebody else. */
  ghost predicate Separate(reserved: set<nat>, w: World) {
    && Accounted(Flags(reserved, w), reserved, All(w))
    && |w.slots| == SHM_MAX_SEGS && forall i :: w.next <= i < |w.slots| ==> w.slots[i] == NONE
  }

  lemma FlagsAre(used: seq<bool>, reserved: set<nat>, w: World)
    requires Accounted(used, reserved, All(w))
    ensures Flags(reserved, w) == used
  {
  }

  // ---- one answer ----

  lemma TakeIsNext(used: seq<bool>, reserved: set<nat>, w: World, s: nat, n: nat)
    requires Accounted(used, reserved, All(w)) && IsRun(used, s, n)
    ensures Accounted(Filled(used, s, s + n, true), reserved, All(w.(live := w.live + [Region(s, n)])))
  {
    hide Accounted, IsRun, Filled;
    var k := |w.live|;
    EmptyComes(used, reserved, All(w), k);
    TakeAt(used, reserved, With(All(w), k, NONE), k, s, n);
    assert With(All(w), k, NONE)[k := Region(s, n)] == All(w.(live := w.live + [Region(s, n)]));
  }

  lemma GiveBackIsNext(used: seq<bool>, reserved: set<nat>, w: World, k: nat)
    requires Accounted(used, reserved, All(w)) && k < |w.live|
    ensures Accounted(Filled(used, w.live[k].start, w.live[k].start + w.live[k].count, false), reserved,
                      All(w.(live := Without(w.live, k))))
  {
    hide Accounted, Filled;
    assert All(w)[k] == w.live[k];
    ReleaseKeepsAccounts(used, reserved, All(w), k);
    assert Without(All(w), k) == All(w.(live := Without(w.live, k)));
  }

  lemma SlotIsTaken(used: seq<bool>, reserved: set<nat>, w: World, i: nat, s: nat, n: nat)
    requires Accounted(used, reserved, All(w)) && i < |w.slots| && w.slots[i] == NONE && IsRun(used, s, n)
    ensures Accounted(Filled(used, s, s + n, true), reserved, All(w.(slots := w.slots[i := Region(s, n)])))
  {
    hide Accounted, IsRun, Filled;
    TakeAt(used, reserved, All(w), |w.live| + i, s, n);
    assert All(w)[|w.live| + i := Region(s, n)] == All(w.(slots := w.slots[i := Region(s, n)]));
  }

  lemma SlotIsFreed(used: seq<bool>, reserved: set<nat>, w: World, i: nat)
    requires Accounted(used, reserved, All(w)) && i < |w.slots|
    ensures Accounted(Filled(used, w.slots[i].start, w.slots[i].start + w.slots[i].count, false), reserved,
                      All(w.(slots := w.slots[i := NONE])))
  {
    hide Accounted, Filled;
    assert All(w)[|w.live| + i] == w.slots[i];
    GiveBackAt(used, reserved, All(w), |w.live| + i);
    assert All(w)[|w.live| + i := NONE] == All(w.(slots := w.slots[i := NONE]));
  }

  /** A right answer keeps the holders apart. */
  lemma AnswerKeepsSeparate(reserved: set<nat>, w: World, q: Request, a: Reply)
    requires Separate(reserved, w) && Answers(reserved, w, q, a)
    ensures Separate(reserved, Next(w, q, a))
  {
    hide Accounted, IsRun, Filled, HasRun, IsLowestRun, Rounded;
    var used := Flags(reserved, w);
    match q
    case Take(count) =>
      if a.Pages? && count > 0 {
        TakeIsNext(used, reserved, w, a.addr / PAGE_SIZE, count);
        FlagsAre(Filled(used, a.addr / PAGE_SIZE, a.addr / PAGE_SIZE + count, true), reserved, Next(w, q, a));
      }
    case GiveBack(k) =>
      if k < |w.live| {
        GiveBackIsNext(used, reserved, w, k);
        FlagsAre(Filled(used, w.live[k].start, w.live[k].start + w.live[k].count, false), reserved, Next(w, q, a));
      }
    case ShmCreate(size) =>
      if a.Segment? && 0 <= a.shmid < |w.slots| {
        var s, n := a.addr / PAGE_SIZE, Rounded(size) / PAGE_SIZE;
        SlotIsTaken(used, reserved, w, a.shmid, s, n);
        var after := Next(w, q, a);
        assert All(after) == All(w.(slots := after.slots));
        FlagsAre(Filled(used, s, s + n, true), reserved, after);
      }
    case ShmDestroy(id) =>
      if 0 <= id < |w.slots| {
        SlotIsFreed(used, reserved, w, id);
        FlagsAre(Filled(used, w.slots[id].start, w.slots[id].start + w.slots[id].count, false), reserved, Next(w, q, a));
      }
  }

  /** Exactly the pages from `first` on, `n` of them, turn to `b`. */
  ghost predicate OnlyPages(before: seq<bool>, after: seq<bool>, first: nat, n: nat, b: bool) {
    |after| == |before| && forall p :: 0 <= p < |before| ==> after[p] == if first <= p < first + n then b else before[p]
  }

  /** What a right answer does to the pages in use: an allocation uses the pages it returns, a
      release frees all pages of the region given back, likewise for shared memory, and everything
      else changes nothing. */
  lemma AnswerMovesPages(reserved: set<nat>, w: World, q: Request, a: Reply)
    requires Separate(reserved, w) && Answers(reserved, w, q, a) && (q.ShmCreate? ==> q.size < WORD_LIMIT)
    ensures var before, after := Flags(reserved, w), Flags(reserved, Next(w, q, a));
            match q
            case Take(count) => OnlyPages(before, after, if a.Pages? then a.addr / 4096 else 0, if a.Pages? then count else 0, true)
            case GiveBack(k) =>
              if k < |w.live| then OnlyPages(before, after, w.live[k].start, w.live[k].count, false) else after == before
            case ShmCreate(size) =>
              if a.Segment? && a.shmid >= 0 then OnlyPages(before, after, a.addr / 4096, (size + 4095) / 4096, true)
              else after == before
            case ShmDestroy(id) =>
              if 0 <= id < |w.slots| then OnlyPages(before, after, w.slots[id].start, w.slots[id].count, false)
              else after == before
  {
    hide Accounted, IsRun, HasRun, IsLowestRun, Rounded;
    var used := Flags(reserved, w);
    match q
    case Take(count) =>
      if a.Pages? && count > 0 {
        TakeIsNext(used, reserved, w, a.addr / PAGE_SIZE, count);
        FlagsAre(Filled(used, a.addr / PAGE_SIZE, a.addr / PAGE_SIZE + count, true), reserved, Next(w, q, a));
      }
    case GiveBack(k) =>
      if k < |w.live| {
        GiveBackIsNext(used, reserved, w, k);
        FlagsAre(Filled(used, w.live[k].start, w.live[k].start + w.live[k].count, false), reserved, Next(w, q, a));
      }
    case ShmCreate(size) =>
      if a.Segment? && a.shmid >= 0 {
        var s, n := a.addr / PAGE_SIZE, Rounded(size) / PAGE_SIZE;
        SegmentPages(w, size);
        SlotIsTaken(used, reserved, w, a.shmid, s, n);
        var after := Next(w, q, a);
        assert All(after) == All(w.(slots := after.slots));
        FlagsAre(Filled(used, s, s + n, true), reserved, after);
      }
    case ShmDestroy(id) =>
      if 0 <= id < |w.slots| {
        SlotIsFreed(used, reserved, w, id);
        FlagsAre(Filled(used, w.slots[id].start, w.slots[id].start + w.slots[id].count, false), reserved, Next(w, q, a));
      }
  }

  lemma SegmentPages(w: World, size: nat)
    requires size < WORD_LIMIT && !Refused(w, size)
    ensures Rounded(size) / PAGE_SIZE == (size + 4095) / 4096
  {
    RoundedIsTight(size);
    var n := (size + 4095) / 4096;
    QuotientIsUnique(n * PAGE_SIZE, PAGE_SIZE, n, 0);
  }

  /** Taking pages and giving them back leaves what was held. */
  lemma TakeThenGiveBack(reserved: set<nat>, w: World, count: nat, addr: nat)
    requires Separate(reserved, w) && count > 0 && Answers(reserved, w, Take(count), Pages(addr))
    ensures var t := Next(w, Take(count), Pages(addr));
            && t.live == w.live + [Region(addr / 4096, count)] && t.slots == w.slots
            && Answers(reserved, t, GiveBack(|w.live|), Freed) && Next(t, GiveBack(|w.live|), Freed) == w
  {
    var t := Next(w, Take(count), Pages(addr));
    assert Without(t.live, |w.live|) == w.live;
  }

  /** Over any run of rightly answered requests all live regions, those of the callers and those
      of shared memory, are pairwise disjoint, and no reserved page is handed out. */
  lemma {:induction false} EveryRunIsSeparate(reserved: set<nat>, w: World, qs: seq<Request>, replies: seq<Reply>)
    requires Separate(reserved, w) && Right(reserved, w, qs, replies)
    ensures Separate(reserved, After(w, qs, replies))
    decreases |replies|
  {
    hide Separate, Answers, Next;
    if replies != [] {
      var n := |replies| - 1;
      var front := replies[..n];
      forall i {:trigger front[i]} | 0 <= i < |front|
        ensures Answers(reserved, After(w, qs, front[..i]), qs[i], front[i])
      {
        assert front[..i] == replies[..i] && front[i] == replies[i];
      }
      EveryRunIsSeparate(reserved, w, qs, front);
      assert replies[n] == replies[n];
      AnswerKeepsSeparate(reserved, After(w, qs, front), qs[n], replies[n]);
    }
  }

  /** When nobody holds anything yet, the pages in use are the reserved ones. */
  lemma BootIsSeparate(used: seq<bool>)
    requires |used| == MAX_PAGES
    ensures var reserved := set p: nat | p < MAX_PAGES && used[p];
            var w := World([], 0, seq(SHM_MAX_SEGS, _ => NONE));
            Accounted(used, reserved, All(w)) && Separate(reserved, w)
  {
    var reserved := set p: nat | p < MAX_PAGES && used[p];
    var w := World([], 0, seq(SHM_MAX_SEGS, _ => NONE));
    assert forall i :: 0 <= i < |All(w)| ==> All(w)[i] == NONE;
    assert forall p: nat :: !Held(All(w), p);
    FlagsAre(used, reserved, w);
  }

  // ---- the kernel answers ----

  function SlotsOf(regions: seq<ShmRegion>): (slots: seq<Region>)
    ensures |slots| == |regions|
  {
    seq(|regions|, i requires 0 <= i < |regions| =>
      if Live(regions[i]) then SharedMemory.Pages(regions[i]) else NONE)
  }

  /** The kernel is in the state that `w` describes. */
  ghost predicate InStep(seg: Segments, reserved: set<nat>, w: World)
    reads seg, seg.regions, seg.pmm, seg.pmm.bitmap
  {
    && seg.Valid() && 0 in reserved
    && w.next == seg.nextShmid && w.slots == SlotsOf(seg.regions[..])
    && Accounted(seg.pmm.used, reserved, All(w))
  }

  lemma SlotsStaySound(regions: seq<ShmRegion>, was: seq<bool>, used: seq<bool>, reserved: set<nat>, live: seq<Region>)
    requires Sound(regions, was) && |was| == |used| && Accounted(used, reserved, live + SlotsOf(regions))
    ensures Sound(regions, used)
  {
    var all := live + SlotsOf(regions);
    forall i, p: nat {:trigger Holds(SharedMemory.Pages(regions[i]), p)} |
      0 <= i < |regions| && Live(regions[i]) && Holds(SharedMemory.Pages(regions[i]), p) && p < |used|
      ensures used[p]
    {
      assert all[|live| + i] == SharedMemory.Pages(regions[i]);
      assert Held(all, p);
    }
  }

  lemma ReservedIsUsed(used: seq<bool>, reserved: set<nat>, all: seq<Region>)
    requires Accounted(used, reserved, all) && 0 in reserved
    ensures |used| == MAX_PAGES && used[0]
  {
  }

  method AnswerTake(seg: Segments, count: nat, live: seq<Region>, ghost reserved: set<nat>, ghost w: World)
    returns (a: Reply, after: seq<Region>)
    requires InStep(seg, reserved, w) && w.live == live
    modifies seg.pmm, seg.pmm.bitmap
    ensures Answers(reserved, w, Take(count), a)
    ensures InStep(seg, reserved, Next(w, Take(count), a)) && Next(w, Take(count), a).live == after
    ensures seg.pmm.Drift() == old(seg.pmm.Drift()) && (old(seg.pmm.HintTight()) ==> seg.pmm.HintTight())
  {
    hide PhysicalMemory.Mirrored, FreeCount, Accounted, Sound, IsRun, IsLowestRun, HasRun, AllUsedBelow, Filled, Flags;
    ghost var used := seg.pmm.used;
    FlagsAre(used, reserved, w);
    after := live;
    var phys := seg.pmm.AllocPages(count);
    if phys.Panicked? {
      return Panic, after;
    }
    a := Pages(phys.value);
    if count > 0 {
      ghost var s := phys.value / PAGE_SIZE;
      after := live + [Region(phys.value / PAGE_SIZE, count)];
      TakeIsNext(used, reserved, w, s, count);
      SlotsStaySound(seg.regions[..], used, seg.pmm.used, reserved, after);
      ReservedIsUsed(seg.pmm.used, reserved, All(Next(w, Take(count), a)));
    }
  }

  method AnswerGiveBack(seg: Segments, k: nat, live: seq<Region>, ghost reserved: set<nat>, ghost w: World)
    returns (a: Reply, after: seq<Region>)
    requires InStep(seg, reserved, w) && w.live == live
    modifies seg.pmm, seg.pmm.bitmap
    ensures Answers(reserved, w, GiveBack(k), a)
    ensures InStep(seg, reserved, Next(w, GiveBack(k), a)) && Next(w, GiveBack(k), a).live == after
    ensures seg.pmm.Drift() == old(seg.pmm.Drift()) && (old(seg.pmm.HintTight()) ==> seg.pmm.HintTight())
  {
    hide PhysicalMemory.Mirrored, FreeCount, Accounted, Sound, AllUsedBelow, Filled, Flags;
    ghost var used := seg.pmm.used;
    a, after := Freed, live;
    if k < |live| {
      GiveBackIsNext(used, reserved, w, k);
      if live[k].count > 0 {
        assert All(w)[k] == live[k];
        RegionInMemory(used, reserved, All(w), k);
        seg.pmm.FreePages(live[k].start * PAGE_SIZE, live[k].count);
      } else {
        FillNone(used, live[k].start, false);
      }
      after := Without(live, k);
      SlotsStaySound(seg.regions[..], used, seg.pmm.used, reserved, after);
      ReservedIsUsed(seg.pmm.used, reserved, All(Next(w, GiveBack(k), a)));
    }
  }

  method AnswerShmCreate(seg: Segments, size: nat, ghost reserved: set<nat>, ghost w: World) returns (a: Reply)
    requires InStep(seg, reserved, w) && size < WORD_LIMIT
    modifies seg, seg.regions, seg.pmm, seg.pmm.bitmap
    ensures Answers(reserved, w, ShmCreate(size), a)
    ensures InStep(seg, reserved, Next(w, ShmCreate(size), a)) && Next(w, ShmCreate(size), a).live == w.live
    ensures seg.pmm.Drift() == old(seg.pmm.Drift()) && (old(seg.pmm.HintTight()) ==> seg.pmm.HintTight())
  {
    hide PhysicalMemory.Mirrored, PhysicalMemory.Valid, FreeCount, Accounted, Sound, IsRun, HasRun, AllUsedBelow, Filled,
         Flags, Rounded;
    ghost var used, before := seg.pmm.used, seg.regions[..];
    FlagsAre(used, reserved, w);
    var id := seg.Create(size);
    if id.Panicked? {
      return Panic;
    }
    if id.value < 0 {
      return Segment(-1, 0);
    }
    ghost var region := seg.regions[id.value];
    a := Segment(id.value, seg.regions[id.value].physBase);
    SlotIsTaken(used, reserved, w, id.value, SharedMemory.Pages(region).start, SharedMemory.Pages(region).count);
    assert SlotsOf(before[id.value := region]) == SlotsOf(before)[id.value := SharedMemory.Pages(region)];
    assert All(Next(w, ShmCreate(size), a)) ==
           All(w.(slots := w.slots[id.value := SharedMemory.Pages(region)]));
  }

  method AnswerShmDestroy(seg: Segments, shmid: int, ghost reserved: set<nat>, ghost w: World) returns (a: Reply)
    requires InStep(seg, reserved, w)
    modifies seg.regions, seg.pmm, seg.pmm.bitmap
    ensures Answers(reserved, w, ShmDestroy(shmid), a)
    ensures InStep(seg, reserved, Next(w, ShmDestroy(shmid), a)) && Next(w, ShmDestroy(shmid), a).live == w.live
    ensures seg.pmm.Drift() == old(seg.pmm.Drift()) && (old(seg.pmm.HintTight()) ==> seg.pmm.HintTight())
  {
    hide PhysicalMemory.Mirrored, PhysicalMemory.Valid, FreeCount, Accounted, Sound, AllUsedBelow, Filled, Flags;
    ghost var used, before := seg.pmm.used, seg.regions[..];
    seg.Destroy(shmid);
    a := Freed;
    if 0 <= shmid < SHM_MAX_SEGS {
      SlotIsFreed(used, reserved, w, shmid);
      if Live(before[shmid]) {
        assert SlotsOf(before[shmid := before[shmid].(physBase := 0)]) == SlotsOf(before)[shmid := NONE];
      } else {
        FillNone(used, 0, false);
        assert SlotsOf(before)[shmid := NONE] == SlotsOf(before);
      }
    }
  }

  method Answer(seg: Segments, q: Request, live: seq<Region>, ghost reserved: set<nat>, ghost w: World)
    returns (a: Reply, after: seq<Region>)
    requires InStep(seg, reserved, w) && w.live == live && (q.ShmCreate? ==> q.size < WORD_LIMIT)
    modifies seg, seg.regions, seg.pmm, seg.pmm.bitmap
    ensures Answers(reserved, w, q, a)
    ensures InStep(seg, reserved, Next(w, q, a)) && Next(w, q, a).live == after
    ensures seg.pmm.Drift() == old(seg.pmm.Drift()) && (old(seg.pmm.HintTight()) ==> seg.pmm.HintTight())
  {
    hide InStep, Answers, Next, PhysicalMemory.HintTight, PhysicalMemory.Drift;
    match q {
      case Take(count) => a, after := AnswerTake(seg, count, live, reserved, w);
      case GiveBack(k) => a, after := AnswerGiveBack(seg, k, live, reserved, w);
      case ShmCreate(size) =>
        a := AnswerShmCreate(seg, size, reserved, w);
        after := live;
      case ShmDestroy(shmid) =>
        a := AnswerShmDestroy(seg, shmid, reserved, w);
        after := live;
    }
  }

  /** Any run of requests, stopped by the first panic. */
  method Serve(seg: Segments, requests: seq<Request>, ghost reserved: set<nat>, before: seq<Region>)
    returns (live: seq<Region>, replies: seq<Reply>)
    requires forall i :: 0 <= i < |requests| && requests[i].ShmCreate? ==> requests[i].size < WORD_LIMIT
    requires InStep(seg, reserved, World(before, seg.nextShmid, SlotsOf(seg.regions[..])))
    modifies seg, seg.regions, seg.pmm, seg.pmm.bitmap
    ensures var w := old(World(before, seg.nextShmid, SlotsOf(seg.regions[..])));
            && Answered(reserved, w, requests, replies)
            && InStep(seg, reserved, After(w, requests, replies)) && After(w, requests, replies).live == live
    ensures seg.pmm.Drift() == old(seg.pmm.Drift())
    ensures old(seg.pmm.HintTight()) ==> seg.pmm.HintTight()
  {
    hide InStep, Answers, Next, Right, After, PhysicalMemory.HintTight, PhysicalMemory.Drift, SlotsOf;
    live, replies := before, [];
    ghost var w0 := World(before, seg.nextShmid, SlotsOf(seg.regions[..]));
    ghost var w := w0;
    NoReply(reserved, w0, requests);
    for i := 0 to |requests|
      invariant |replies| == i && w == After(w0, requests, replies) && w.live == live
      invariant InStep(seg, reserved, w) && Right(reserved, w0, requests, replies)
      invariant forall j :: 0 <= j < i ==> replies[j] != Panic
      invariant seg.pmm.Drift() == old(seg.pmm.Drift())
      invariant old(seg.pmm.HintTight()) ==> seg.pmm.HintTight()
    {
      var a;
      a, live := Answer(seg, requests[i], live, reserved, w);
      OneMoreReply(reserved, w0, requests, replies, a);
      w := Next(w, requests[i], a);
      replies := replies + [a];
      if a == Panic {
        return;
      }
    }
  }

  lemma NoReply(reserved: set<nat>, w: World, qs: seq<Request>)
    ensures Right(reserved, w, qs, []) && After(w, qs, []) == w
  {
  }
}
