/** How unfair the scheduler can get: bounds on virtual runtime and CPU time over any run of
    ticks and yields on a fixed set of runnable processes. */
module Fairness {
  import opened Sched

  /** Every queued process can run; only the current one may be marked running. */
  ghost predicate Runnable(s: RunState) {
    && WellFormed(s)
    && (forall i :: 0 <= i < |s.queue| ==>
          var p := s.queue[i];
          s.procs[p].state == Ready || (s.procs[p].state == Running && p == s.current))
    && (s.procs[s.current].state == Ready || s.procs[s.current].state == Running)
    && (forall p :: 0 <= p < |s.procs| ==> s.procs[p].priority <= 255)
  }

  /** The weight of a priority of at most 255. */
  function W(priority: nat): (w: nat)
    requires priority <= 255
    ensures 1 <= w <= 256 && w == Weight(priority)
  {
    256 - priority
  }

  /** No virtual runtime can pass 2^32 in the next `n` steps. */
  ghost predicate HeadRoom(s: RunState, n: nat) {
    forall p :: 0 <= p < |s.procs| ==> s.procs[p].vruntime + 256 * n < UINT32
  }

  function Max(a: int, b: int): int {
    if a < b then b else a
  }

  /** What the quantum in progress at `s0` may still add to the virtual runtime of `p`. */
  function Rest(s0: RunState, p: nat): nat
    requires p < |s0.procs| && s0.procs[p].priority <= 255
  {
    if p == s0.current then W(s0.procs[p].priority) * (QUANTUM - s0.procs[p].runtimeTicks % QUANTUM) else 0
  }

  /** What `p` may be ahead of `q`: the gap there was and the rest of the quantum that was in
      progress, or one quantum of `p`. */
  function Allowance(s0: RunState, p: nat, q: nat): int
    requires p < |s0.procs| && q < |s0.procs| && s0.procs[p].priority <= 255
  {
    Max(s0.procs[p].vruntime - s0.procs[q].vruntime + Rest(s0, p), QUANTUM * W(s0.procs[p].priority))
  }

  ghost predicate SameTask(s0: RunState, s: RunState) {
    && |s.procs| == |s0.procs| && s.queue == s0.queue
    && forall p :: 0 <= p < |s.procs| ==> s.procs[p].priority == s0.procs[p].priority
  }

  /** No queued process is further ahead of another than its allowance. */
  ghost predicate Bounded(s0: RunState, s: RunState)
    requires Runnable(s0) && Runnable(s) && SameTask(s0, s)
  {
    forall i, j :: 0 <= i < |s.queue| && 0 <= j < |s.queue| ==>
      var p, q := s.queue[i], s.queue[j];
      s.procs[p].vruntime <= s.procs[q].vruntime + Allowance(s0, p, q)
  }

  /** The current process would stay within its allowance if it used its quantum up. */
  ghost predicate CurrentBound(s0: RunState, s: RunState)
    requires Runnable(s0) && Runnable(s) && SameTask(s0, s)
  {
    s.current in s.queue ==>
      forall i :: 0 <= i < |s.queue| ==>
        var c := s.procs[s.current];
        c.vruntime + W(c.priority) * (QUANTUM - c.runtimeTicks % QUANTUM) <=
        s.procs[s.queue[i]].vruntime + Allowance(s0, s.current, s.queue[i])
  }

  ghost predicate TickOrYield(e: Event) {
    e.TickEvent? || e.YieldEvent?
  }

  // ---- one step ----

  /** The table after one tick was charged, before any hand-over. */
  function Charged(s: RunState): RunState
    requires WellFormed(s)
  {
    s.(procs := s.procs[s.current := Charge(s.procs[s.current])], tick := s.tick + 1)
  }

  lemma TickShape(s: RunState)
    requires Runnable(s)
    ensures var c := Charged(s);
            var r := c.(procs := SetState(c.procs, c.current, Ready));
            && WellFormed(c) && WellFormed(r)
            && Tick(s) == if c.procs[c.current].runtimeTicks % QUANTUM != 0 then c else Dispatch(r)
  {
    hide Distinct, Weight, PickFrom, Dispatch, WakeAll;
    var c := Charged(s);
    NobodyQueuedWakes(c.procs, s.queue, s.tick + 1);
    if c.procs[c.current].state == Ready {
      assert SetState(c.procs, c.current, Ready) == c.procs;
    }
  }

  lemma NobodyQueuedWakes(procs: seq<Pcb>, queue: seq<nat>, tick: nat)
    requires forall i :: 0 <= i < |queue| ==> queue[i] < |procs| && procs[queue[i]].state != Sleeping
    ensures WakeAll(procs, queue, tick) == procs
  {
  }

  /** When everybody queued is ready, the search finds a process that nobody is behind. */
  lemma LeastPick(procs: seq<Pcb>, queue: seq<nat>)
    requires forall i :: 0 <= i < |queue| ==> queue[i] < |procs| && procs[queue[i]].state == Ready
    requires queue != []
    ensures PickNext(procs, queue) in queue
    ensures forall i :: 0 <= i < |queue| ==>
              procs[PickNext(procs, queue)].vruntime <= procs[queue[i]].vruntime
  {
    hide PickNext;
    PickNextIsBest(procs, queue);
    assert procs[queue[0]].state == Ready;
    var k :| 0 <= k < |queue| && IsBest(procs, queue, k) && PickNext(procs, queue) == queue[k];
  }

  /** Nobody queued is behind the current process in virtual runtime. */
  ghost predicate CurrentIsLeast(s: RunState)
    requires Runnable(s)
  {
    forall i :: 0 <= i < |s.queue| ==> s.procs[s.current].vruntime <= s.procs[s.queue[i]].vruntime
  }

  lemma DispatchToLeast(s: RunState)
    requires Runnable(s) && s.procs[s.current].state == Ready && s.queue != []
    ensures Runnable(Dispatch(s)) && SameTask(s, Dispatch(s)) && CurrentIsLeast(Dispatch(s))
    ensures Dispatch(s).current in s.queue
    ensures forall p :: 0 <= p < |s.procs| ==>
              && Dispatch(s).procs[p].vruntime == s.procs[p].vruntime
              && Dispatch(s).procs[p].runtimeTicks == s.procs[p].runtimeTicks
    ensures Dispatch(s).tick == s.tick
  {
    hide PickNext, Distinct, Weight;
    LeastPick(s.procs, s.queue);
  }

  lemma LeastBound(s0: RunState, s: RunState)
    requires Runnable(s0) && Runnable(s) && SameTask(s0, s) && CurrentIsLeast(s)
    ensures CurrentBound(s0, s)
  {
    hide Distinct, Weight, Rest;
    var c := s.procs[s.current];
    QuantumParts(W(c.priority), c.runtimeTicks % QUANTUM);
  }

  /** What `w` per tick adds up to in the rest of a quantum after `t` ticks. */
  lemma QuantumParts(w: nat, t: nat)
    requires t < QUANTUM
    ensures w <= w * (QUANTUM - t) <= QUANTUM * w
    ensures w * (QUANTUM - t) == w + w * (QUANTUM - t - 1)
    ensures w * t + w * (QUANTUM - t) == QUANTUM * w && 0 <= w * t
  {
  }

  /** Right after a hand-over, and for as long as the current process is ahead by no more than
      its quantum so far, the allowance is the gap there is or one quantum. */
  lemma AllowanceInQuantum(s: RunState, i: nat, j: nat)
    requires Runnable(s) && i < |s.queue| && j < |s.queue|
    requires var c := s.procs[s.current];
             forall k :: 0 <= k < |s.queue| ==>
               c.vruntime <= s.procs[s.queue[k]].vruntime + W(c.priority) * (c.runtimeTicks % QUANTUM)
    ensures var p, q := s.queue[i], s.queue[j];
            Allowance(s, p, q) ==
            Max(s.procs[p].vruntime - s.procs[q].vruntime, QUANTUM * W(s.procs[p].priority))
  {
    hide Distinct, Weight;
    var c := s.procs[s.current];
    QuantumParts(W(c.priority), c.runtimeTicks % QUANTUM);
  }

  /** A yield leaves a process current that nobody queued is behind. */
  lemma YieldToLeast(s: RunState)
    requires Runnable(s) && s.queue != []
    ensures FairStart(Yield(s)) && CurrentIsLeast(Yield(s))
  {
    hide Dispatch, Weight, Distinct;
    DispatchToLeast(s.(procs := SetState(s.procs, s.current, Ready)));
  }

  lemma ChargeRaises(s: RunState)
    requires Runnable(s) && HeadRoom(s, 1)
    ensures Runnable(Charged(s)) && SameTask(s, Charged(s))
    ensures var c := s.procs[s.current];
            Charged(s).procs[s.current].vruntime == c.vruntime + W(c.priority)
  {
  }

  /** One charged tick keeps the bound: only the current process moves, and its own bound
      leaves it room for one more tick of the quantum. */
  lemma ChargeKeepsBound(s0: RunState, s: RunState)
    requires Runnable(s0) && Runnable(s) && SameTask(s0, s) && HeadRoom(s, 1)
    requires CurrentBound(s0, s) && Bounded(s0, s)
    ensures Runnable(Charged(s)) && SameTask(s0, Charged(s)) && Bounded(s0, Charged(s))
    ensures Charged(s).procs[s.current].runtimeTicks % QUANTUM != 0 ==> CurrentBound(s0, Charged(s))
  {
    hide Distinct, Weight, Rest;
    ChargeRaises(s);
    var c := s.procs[s.current];
    var r := Charged(s);
    var w, t := W(c.priority), c.runtimeTicks % QUANTUM;
    QuantumParts(w, t);
    NextTick(c.runtimeTicks);
    assert QUANTUM * w >= w;
    forall i, j | 0 <= i < |s.queue| && 0 <= j < |s.queue|
      ensures var p, q := s.queue[i], s.queue[j];
              r.procs[p].vruntime <= r.procs[q].vruntime + Allowance(s0, p, q)
    {
      var p, q := s.queue[i], s.queue[j];
      assert s.procs[p].vruntime <= s.procs[q].vruntime + Allowance(s0, p, q);
      if p == s.current && q != p {
        assert c.vruntime + w * (QUANTUM - t) <= s.procs[q].vruntime + Allowance(s0, p, q);
      }
    }
    if t != 9 && s.current in s.queue {
      forall i | 0 <= i < |s.queue|
        ensures r.procs[s.current].vruntime + w * (QUANTUM - (t + 1)) <=
                r.procs[s.queue[i]].vruntime + Allowance(s0, s.current, s.queue[i])
      {
        assert c.vruntime + w * (QUANTUM - t) <= s.procs[s.queue[i]].vruntime + Allowance(s0, s.current, s.queue[i]);
      }
    }
  }

  /** A step keeps everything the bound rests on. */
  lemma StepKeepsBound(s0: RunState, s: RunState, e: Event)
    requires Runnable(s0) && Runnable(s) && SameTask(s0, s) && HeadRoom(s, 1)
    requires CurrentBound(s0, s) && Bounded(s0, s) && TickOrYield(e) && s.queue != []
    ensures var r := Step(s, e);
            Runnable(r) && SameTask(s0, r) && CurrentBound(s0, r) && Bounded(s0, r)
    ensures Step(s, e).current in s.queue || (e.TickEvent? && Step(s, e).current == s.current)
  {
    hide PickFrom, Weight, Distinct, Tick, CurrentBound, Bounded;
    match e
    case TickEvent =>
      TickShape(s);
      ChargeKeepsBound(s0, s);
      var c := Charged(s);
      if c.procs[c.current].runtimeTicks % QUANTUM == 0 {
        HandOverKeepsBound(s0, c);
      }
    case YieldEvent => HandOverKeepsBound(s0, s);
  }

  /** The current process is set ready and the next one chosen. */
  lemma HandOverKeepsBound(s0: RunState, s: RunState)
    requires Runnable(s0) && Runnable(s) && SameTask(s0, s) && Bounded(s0, s) && s.queue != []
    ensures var r := s.(procs := SetState(s.procs, s.current, Ready));
            && WellFormed(r)
            && Runnable(Dispatch(r)) && SameTask(s0, Dispatch(r))
            && CurrentBound(s0, Dispatch(r)) && Bounded(s0, Dispatch(r))
            && Dispatch(r).current in s.queue
  {
    hide Weight, Distinct, Dispatch, CurrentBound, Bounded;
    var r := s.(procs := SetState(s.procs, s.current, Ready));
    DispatchToLeast(r);
    LeastBound(s0, Dispatch(r));
    SameRuntimesSameBound(s0, s, Dispatch(r));
  }

  lemma SameRuntimesSameBound(s0: RunState, s: RunState, r: RunState)
    requires Runnable(s0) && Runnable(s) && Runnable(r) && SameTask(s0, s) && SameTask(s0, r) && Bounded(s0, s)
    requires forall p :: 0 <= p < |s.procs| ==> r.procs[p].vruntime == s.procs[p].vruntime
    ensures Bounded(s0, r)
  {
    forall i, j | 0 <= i < |s.queue| && 0 <= j < |s.queue|
      ensures var p, q := s.queue[i], s.queue[j];
              r.procs[p].vruntime <= r.procs[q].vruntime + Allowance(s0, p, q)
    {
      assert s.procs[s.queue[i]].vruntime <=
             s.procs[s.queue[j]].vruntime + Allowance(s0, s.queue[i], s.queue[j]);
    }
  }

  /** A step raises each virtual runtime by at most 256. */
  lemma StepUsesRoom(s: RunState, e: Event, n: nat)
    requires Runnable(s) && TickOrYield(e) && HeadRoom(s, n + 1)
    ensures HeadRoom(Step(s, e), n)
  {
    hide PickFrom, Distinct, Weight, Tick;
    match e
    case TickEvent =>
      TickShape(s);
      ChargeRaises(s);
    case YieldEvent =>
  }

  // ---- whole runs ----

  /** The state after a run of ticks and yields. */
  ghost function After(s: RunState, events: seq<Event>): (r: RunState)
    requires WellFormed(s) && forall i :: 0 <= i < |events| ==> TickOrYield(events[i])
    ensures WellFormed(r)
  {
    if events == [] then s
    else
      var before := After(s, events[..|events| - 1]);
      assert TickOrYield(events[|events| - 1]);
      Step(before, events[|events| - 1])
  }

  /** The states that fair runs start in: everybody queued can run, and somebody is queued. */
  ghost predicate FairStart(s: RunState) {
    Runnable(s) && s.queue != []
  }

  /** Bounded unfairness: over any run of ticks and yields, no queued process gets further
      ahead of another in virtual runtime than the gap there was at the start (and what was
      left of the quantum in progress) or one quantum of its own, whichever is larger. */
  lemma {:induction false} BoundedUnfairness(s: RunState, events: seq<Event>, spare: nat)
    requires FairStart(s) && HeadRoom(s, |events| + spare)
    requires forall i :: 0 <= i < |events| ==> TickOrYield(events[i])
    ensures var r := After(s, events);
            FairStart(r) && SameTask(s, r) && CurrentBound(s, r) && Bounded(s, r) && HeadRoom(r, spare)
    decreases |events|
  {
    hide CurrentBound, HeadRoom, Distinct, Weight;
    if events == [] {
      StartIsBounded(s);
    } else {
      var front, e := events[..|events| - 1], events[|events| - 1];
      BoundedUnfairness(s, front, spare + 1);
      var b := After(s, front);
      LessRoom(b, spare + 1, 1);
      StepKeepsBound(s, b, e);
      StepUsesRoom(b, e, spare);
    }
  }

  lemma StartIsBounded(s: RunState)
    requires Runnable(s)
    ensures SameTask(s, s) && Bounded(s, s) && CurrentBound(s, s)
  {
    hide Distinct, Weight;
  }

  lemma LessRoom(s: RunState, n: nat, m: nat)
    requires HeadRoom(s, n) && m <= n
    ensures HeadRoom(s, m)
  {
  }

  // ---- CPU time ----

  /** Since `s0` every virtual runtime has grown by weighted CPU time, without wrap-around. */
  ghost predicate Gained(s0: RunState, s: RunState)
    requires Runnable(s0) && SameTask(s0, s)
  {
    forall p :: 0 <= p < |s.procs| ==>
      && Gain(s0, s, p) >= 0
      && s.procs[p].vruntime - s0.procs[p].vruntime == Gain(s0, s, p) * W(s0.procs[p].priority)
  }

  /** The CPU time that `p` got between `s0` and `s`. */
  function Gain(s0: RunState, s: RunState, p: nat): int
    requires p < |s0.procs| && p < |s.procs|
  {
    s.procs[p].runtimeTicks - s0.procs[p].runtimeTicks
  }

  function QueueTicks(procs: seq<Pcb>, queue: seq<nat>): nat
    requires forall i :: 0 <= i < |queue| ==> queue[i] < |procs|
  {
    if queue == [] then 0
    else QueueTicks(procs, queue[..|queue| - 1]) + procs[queue[|queue| - 1]].runtimeTicks
  }

  lemma {:induction false} QueueTicksSame(a: seq<Pcb>, b: seq<Pcb>, queue: seq<nat>)
    requires |a| == |b| && forall i :: 0 <= i < |queue| ==> queue[i] < |a|
    requires forall i :: 0 <= i < |queue| ==> a[queue[i]].runtimeTicks == b[queue[i]].runtimeTicks
    ensures QueueTicks(a, queue) == QueueTicks(b, queue)
  {
    if queue != [] {
      QueueTicksSame(a, b, queue[..|queue| - 1]);
    }
  }

  /** Charging one process counts once when it is queued and not at all when it is not. */
  lemma {:induction false} QueueTicksCharge(procs: seq<Pcb>, queue: seq<nat>, c: nat)
    requires c < |procs| && procs[c].priority < UINT32 && Distinct(queue)
    requires forall i :: 0 <= i < |queue| ==> queue[i] < |procs|
    ensures QueueTicks(procs[c := Charge(procs[c])], queue) ==
            QueueTicks(procs, queue) + (if c in queue then 1 else 0)
  {
    if queue != [] {
      var front, last := queue[..|queue| - 1], queue[|queue| - 1];
      QueueTicksCharge(procs, front, c);
      assert c in queue <==> c in front || c == last;
    }
  }

  lemma {:induction false} QueueTicksGain(a: seq<Pcb>, b: seq<Pcb>, queue: seq<nat>, bound: nat)
    requires |a| == |b| && forall i :: 0 <= i < |queue| ==> queue[i] < |a|
    requires forall i :: 0 <= i < |queue| ==> b[queue[i]].runtimeTicks - a[queue[i]].runtimeTicks <= bound
    ensures QueueTicks(b, queue) - QueueTicks(a, queue) <= |queue| * bound
  {
    if queue != [] {
      QueueTicksGain(a, b, queue[..|queue| - 1], bound);
      assert |queue| * bound == (|queue| - 1) * bound + bound;
    }
  }

  /** Ticks that went to processes outside the queue. */
  function Outside(s: RunState): int
    requires WellFormed(s)
  {
    s.tick - QueueTicks(s.procs, s.queue)
  }

  /** Ticks that an unqueued current process may still take before its quantum ends. */
  function Slack(s: RunState): nat
    requires WellFormed(s)
  {
    if s.current in s.queue then 0 else QUANTUM - s.procs[s.current].runtimeTicks % QUANTUM
  }

  lemma ChargeOutside(s: RunState)
    requires Runnable(s)
    ensures WellFormed(Charged(s))
    ensures Outside(Charged(s)) == Outside(s) + (if s.current in s.queue then 0 else 1)
  {
    QueueTicksCharge(s.procs, s.queue, s.current);
  }

  lemma HandOverOutside(s: RunState)
    requires Runnable(s) && s.queue != []
    ensures var r := s.(procs := SetState(s.procs, s.current, Ready));
            WellFormed(r) && Outside(Dispatch(r)) == Outside(s) && Slack(Dispatch(r)) == 0
  {
    hide Dispatch, Weight, Distinct;
    var r := s.(procs := SetState(s.procs, s.current, Ready));
    DispatchToLeast(r);
    QueueTicksSame(s.procs, Dispatch(r).procs, s.queue);
  }

  /** Time outside the queue can only be taken from the slack. */
  lemma StepOutside(s: RunState, e: Event)
    requires Runnable(s) && TickOrYield(e) && s.queue != []
    ensures Outside(Step(s, e)) + Slack(Step(s, e)) <= Outside(s) + Slack(s)
  {
    hide Dispatch, Weight, Distinct, Tick, QueueTicks, Outside;
    match e
    case TickEvent =>
      TickShape(s);
      ChargeOutside(s);
      var c := Charged(s);
      NextTick(s.procs[s.current].runtimeTicks);
      if c.procs[c.current].runtimeTicks % QUANTUM == 0 {
        ChargedIsRunnable(s);
        HandOverOutside(c);
      }
    case YieldEvent => HandOverOutside(s);
  }

  lemma ChargedIsRunnable(s: RunState)
    requires Runnable(s)
    ensures Runnable(Charged(s))
  {
  }

  lemma NextTick(t: nat)
    ensures (t + 1) % QUANTUM == if t % QUANTUM == 9 then 0 else t % QUANTUM + 1
  {
  }

  lemma StepKeepsGained(s0: RunState, s: RunState, e: Event)
    requires Runnable(s0) && SameTask(s0, s) && Gained(s0, s)
    requires Runnable(s) && TickOrYield(e) && HeadRoom(s, 1) && s.queue != []
    requires Runnable(Step(s, e)) && SameTask(s0, Step(s, e))
    ensures Gained(s0, Step(s, e))
  {
    hide Dispatch, Weight, Distinct, Tick, Charge, Gained;
    match e
    case TickEvent =>
      TickShape(s);
      ChargeIsGained(s0, s);
      var c := Charged(s);
      if c.procs[c.current].runtimeTicks % QUANTUM == 0 {
        DispatchToLeast(c.(procs := SetState(c.procs, c.current, Ready)));
        SameTimesSameGain(s0, c, Tick(s));
      }
    case YieldEvent =>
      DispatchToLeast(s.(procs := SetState(s.procs, s.current, Ready)));
      SameTimesSameGain(s0, s, Yield(s));
  }

  lemma SameTimesSameGain(s0: RunState, a: RunState, b: RunState)
    requires Runnable(s0) && SameTask(s0, a) && SameTask(s0, b) && Gained(s0, a)
    requires forall p :: 0 <= p < |a.procs| ==>
               b.procs[p].vruntime == a.procs[p].vruntime && b.procs[p].runtimeTicks == a.procs[p].runtimeTicks
    ensures Gained(s0, b)
  {
  }

  lemma ChargeIsGained(s0: RunState, s: RunState)
    requires Runnable(s0) && SameTask(s0, s) && Gained(s0, s) && Runnable(s) && HeadRoom(s, 1)
    ensures Runnable(Charged(s)) && SameTask(s0, Charged(s)) && Gained(s0, Charged(s))
    ensures |Charged(s).procs| == |s.procs| && Charged(s).queue == s.queue && Charged(s).current == s.current
  {
    hide Distinct, Weight;
    ChargeRaises(s);
    var c := s.current;
    assert (Gain(s0, s, c) + 1) * W(s0.procs[c].priority) == Gain(s0, s, c) * W(s0.procs[c].priority) + W(s0.procs[c].priority);
  }

  lemma {:induction false} RunAccounts(s: RunState, events: seq<Event>, spare: nat)
    requires FairStart(s) && HeadRoom(s, |events| + spare)
    requires forall i :: 0 <= i < |events| ==> TickOrYield(events[i])
    ensures var r := After(s, events);
            Runnable(r) && SameTask(s, r) && Gained(s, r) && Outside(r) + Slack(r) <= Outside(s) + Slack(s)
    decreases |events|
  {
    hide CurrentBound, HeadRoom, Distinct, Weight, Outside, Slack, Gained, Step;
    if events == [] {
      NothingGained(s);
    } else {
      var front, e := events[..|events| - 1], events[|events| - 1];
      RunAccounts(s, front, spare + 1);
      BoundedUnfairness(s, front, spare + 1);
      var b := After(s, front);
      LessRoom(b, spare + 1, 1);
      StepKeepsBound(s, b, e);
      StepKeepsGained(s, b, e);
      StepOutside(b, e);
    }
  }

  lemma NothingGained(s: RunState)
    requires Runnable(s)
    ensures SameTask(s, s) && Gained(s, s)
  {
  }

  /** Weighted fair shares: over any run, the weighted CPU time that `p` gets exceeds the one
      that `q` gets by no more than the part of its allowance that is not the gap there was. */
  lemma FairShares(s: RunState, events: seq<Event>, i: nat, j: nat)
    requires FairStart(s) && HeadRoom(s, |events|)
    requires forall k :: 0 <= k < |events| ==> TickOrYield(events[k])
    requires i < |s.queue| && j < |s.queue|
    ensures var r := After(s, events);
            var p, q := s.queue[i], s.queue[j];
            && SameTask(s, r) && Gain(s, r, p) >= 0 && Gain(s, r, q) >= 0
            && Gain(s, r, p) * W(s.procs[p].priority) <=
               Gain(s, r, q) * W(s.procs[q].priority)
               + Max(Rest(s, p), QUANTUM * W(s.procs[p].priority) + s.procs[q].vruntime - s.procs[p].vruntime)
  {
    hide HeadRoom, Distinct, Weight, After, CurrentBound, Rest;
    BoundedUnfairness(s, events, 0);
    RunAccounts(s, events, 0);
    var r := After(s, events);
    var p, q := s.queue[i], s.queue[j];
    assert r.procs[p].vruntime <= r.procs[q].vruntime + Allowance(s, p, q);
  }

  /** `q` is at most `lag` ahead of everybody queued. */
  ghost predicate LagAtMost(s: RunState, q: nat, lag: nat)
    requires WellFormed(s) && q < |s.procs|
  {
    forall i :: 0 <= i < |s.queue| ==> s.procs[q].vruntime <= s.procs[s.queue[i]].vruntime + lag
  }

  /** The same in ticks, for a `q` that starts at most `lag` ahead. */
  lemma ShareInTicks(s: RunState, events: seq<Event>, i: nat, j: nat, lag: nat)
    requires FairStart(s) && HeadRoom(s, |events|)
    requires forall k :: 0 <= k < |events| ==> TickOrYield(events[k])
    requires i < |s.queue| && j < |s.queue| && LagAtMost(s, s.queue[j], lag)
    ensures var r := After(s, events);
            var p, q := s.queue[i], s.queue[j];
            && SameTask(s, r) && Gain(s, r, q) >= 0
            && Gain(s, r, p) <= W(s.procs[q].priority) * Gain(s, r, q) + lag + QUANTUM
            && (s.procs[p].priority <= s.procs[q].priority ==> Gain(s, r, p) <= Gain(s, r, q) + lag + QUANTUM)
  {
    hide HeadRoom, Distinct, Weight, After;
    FairShares(s, events, i, j);
    var r := After(s, events);
    var p, q := s.queue[i], s.queue[j];
    RestIsSmall(s, p);
    hide W, Rest, Gain;
    InTicks(Gain(s, r, p), Gain(s, r, q), W(s.procs[p].priority), W(s.procs[q].priority), Rest(s, p),
            s.procs[q].vruntime - s.procs[p].vruntime, lag);
    if s.procs[p].priority <= s.procs[q].priority {
      FewerOrEqual(s.procs[p].priority, s.procs[q].priority);
    }
  }

  lemma FewerOrEqual(a: nat, b: nat)
    requires a <= b <= 255
    ensures W(b) <= W(a)
  {
  }

  lemma RestIsSmall(s: RunState, p: nat)
    requires p < |s.procs| && s.procs[p].priority <= 255
    ensures Rest(s, p) <= QUANTUM * W(s.procs[p].priority)
  {
    QuantumParts(W(s.procs[p].priority), s.procs[p].runtimeTicks % QUANTUM);
  }

  lemma InTicks(tp: nat, tq: nat, wp: nat, wq: nat, rest: nat, ahead: int, lag: nat)
    requires 1 <= wp && rest <= QUANTUM * wp && ahead <= lag
    requires tp * wp <= tq * wq + Max(rest, QUANTUM * wp + ahead)
    ensures tp <= wq * tq + lag + QUANTUM
    ensures wq <= wp ==> tp <= tq + lag + QUANTUM
  {
    var x := tq * wq;
    ShareBound(tp, wp, x, lag);
    if wq <= wp {
      ProductGrows(tq, wq, wp);
      EvenShare(tp, tq, wp, lag);
    }
  }

  lemma ProductGrows(x: nat, a: nat, b: nat)
    requires a <= b
    ensures x * a <= x * b
  {
    assert x * b == x * a + x * (b - a);
  }

  lemma ShareBound(tp: nat, wp: nat, x: nat, lag: nat)
    requires 1 <= wp && tp * wp <= x + QUANTUM * wp + lag
    ensures tp <= x + lag + QUANTUM
  {
    if tp > QUANTUM {
      assert (tp - QUANTUM) * wp == tp * wp - QUANTUM * wp;
      ProductGrows(tp - QUANTUM, 1, wp);
    }
  }

  lemma EvenShare(tp: nat, tq: nat, w: nat, lag: nat)
    requires 1 <= w && tp * w <= tq * w + QUANTUM * w + lag
    ensures tp <= tq + lag + QUANTUM
  {
    if tp > tq + QUANTUM {
      assert (tp - tq - QUANTUM) * w == tp * w - tq * w - QUANTUM * w;
      ProductGrows(tp - tq - QUANTUM, 1, w);
    }
  }

  /** No starvation: over any run the CPU time of every queued process grows with the time
      that passes.  With `n` queued processes, of `t` ticks all but 10 are theirs, and a
      process of weight `w` that was at most `lag` ahead of the others at the start and ran `k`
      ticks satisfies `t <= n * (w * k + lag + 10) + 10`. */
  lemma NoStarvation(s: RunState, events: seq<Event>, j: nat, lag: nat)
    requires FairStart(s) && HeadRoom(s, |events|)
    requires forall k :: 0 <= k < |events| ==> TickOrYield(events[k])
    requires j < |s.queue| && LagAtMost(s, s.queue[j], lag)
    ensures var r := After(s, events);
            var q := s.queue[j];
            && SameTask(s, r) && Gain(s, r, q) >= 0
            && r.tick - s.tick <=
               |s.queue| * (W(s.procs[q].priority) * Gain(s, r, q) + lag + QUANTUM) + QUANTUM
  {
    hide HeadRoom, Distinct, Weight, After, LagAtMost, W, Gain;
    ShareInTicks(s, events, j, j, lag);
    QueueGetsTheTicks(s, events, j, lag);
  }

  /** What everybody queued has got at most, when `q` has got its gain. */
  function Share(s: RunState, r: RunState, q: nat, lag: nat): int
    requires q < |s.procs| && q < |r.procs| && s.procs[q].priority <= 255
  {
    W(s.procs[q].priority) * Gain(s, r, q) + lag + QUANTUM
  }

  lemma QueueGetsTheTicks(s: RunState, events: seq<Event>, j: nat, lag: nat)
    requires FairStart(s) && HeadRoom(s, |events|)
    requires forall k :: 0 <= k < |events| ==> TickOrYield(events[k])
    requires j < |s.queue| && LagAtMost(s, s.queue[j], lag)
    ensures var r := After(s, events);
            SameTask(s, r) && r.tick - s.tick <= |s.queue| * Share(s, r, s.queue[j], lag) + QUANTUM
  {
    hide HeadRoom, Distinct, Weight, After, LagAtMost, W, QueueTicks;
    var r := After(s, events);
    RunAccounts(s, events, 0);
    EverybodysShare(s, events, j, lag);
    ShareIsNat(s, events, j, lag);
    hide Runnable, Gained, Outside, Slack, Share, Gain;
    TicksFromQueue(s, r, Share(s, r, s.queue[j], lag));
  }

  lemma ShareIsNat(s: RunState, events: seq<Event>, j: nat, lag: nat)
    requires FairStart(s) && HeadRoom(s, |events|)
    requires forall k :: 0 <= k < |events| ==> TickOrYield(events[k])
    requires j < |s.queue| && LagAtMost(s, s.queue[j], lag)
    ensures SameTask(s, After(s, events)) && Share(s, After(s, events), s.queue[j], lag) >= 0
  {
    hide HeadRoom, Distinct, Weight, After, LagAtMost;
    ShareInTicks(s, events, j, j, lag);
    ProductIsNat(W(s.procs[s.queue[j]].priority), Gain(s, After(s, events), s.queue[j]));
  }

  lemma ProductIsNat(x: nat, y: nat)
    ensures x * y >= 0
  {
  }

  lemma EverybodysShare(s: RunState, events: seq<Event>, j: nat, lag: nat)
    requires FairStart(s) && HeadRoom(s, |events|)
    requires forall k :: 0 <= k < |events| ==> TickOrYield(events[k])
    requires j < |s.queue| && LagAtMost(s, s.queue[j], lag)
    ensures var r := After(s, events);
            && |r.procs| == |s.procs|
            && forall i :: 0 <= i < |s.queue| ==>
                 Gain(s, r, s.queue[i]) <= Share(s, r, s.queue[j], lag)
  {
    hide HeadRoom, Distinct, Weight, After, LagAtMost, W, Gain;
    ShareInTicks(s, events, j, j, lag);
    forall i | 0 <= i < |s.queue|
      ensures Gain(s, After(s, events), s.queue[i]) <= Share(s, After(s, events), s.queue[j], lag)
    {
      ShareInTicks(s, events, i, j, lag);
    }
  }

  lemma TicksFromQueue(s: RunState, r: RunState, bound: nat)
    requires WellFormed(s) && WellFormed(r) && SameTask(s, r)
    requires Outside(r) + Slack(r) <= Outside(s) + Slack(s)
    requires forall i :: 0 <= i < |s.queue| ==> Gain(s, r, s.queue[i]) <= bound
    ensures r.tick - s.tick <= |s.queue| * bound + QUANTUM
  {
    QueueTicksGain(s.procs, r.procs, s.queue, bound);
  }

  // ---- what a priority number means ----

  /** A tick costs more virtual runtime exactly when the priority number is smaller. */
  lemma SmallerNumberPaysMore(a: nat, b: nat)
    requires a <= 255 && b <= 255
    ensures Weight(a) > Weight(b) <==> a < b
  {
  }

  /** Over any run, a process with the smaller or equal priority number that does not start
      behind gets no more than one quantum of CPU time beyond the other: the smaller number is
      the less favoured one. */
  lemma LargerNumberIsFavoured(s: RunState, events: seq<Event>, i: nat, j: nat)
    requires FairStart(s) && HeadRoom(s, |events|)
    requires forall k :: 0 <= k < |events| ==> TickOrYield(events[k])
    requires i < |s.queue| && j < |s.queue| && s.procs[s.queue[i]].priority <= s.procs[s.queue[j]].priority
    requires s.procs[s.queue[j]].vruntime <= s.procs[s.queue[i]].vruntime
    ensures var r := After(s, events);
            SameTask(s, r) && Gain(s, r, s.queue[i]) <= Gain(s, r, s.queue[j]) + QUANTUM
  {
    hide HeadRoom, Distinct, Weight, After;
    FairShares(s, events, i, j);
    var r := After(s, events);
    var p, q := s.queue[i], s.queue[j];
    RestIsSmall(s, p);
    FewerOrEqual(s.procs[p].priority, s.procs[q].priority);
    hide W, Rest, Gain;
    InTicks(Gain(s, r, p), Gain(s, r, q), W(s.procs[p].priority), W(s.procs[q].priority), Rest(s, p),
            s.procs[q].vruntime - s.procs[p].vruntime, 0);
  }

  /** The idle process and two queued ones with priorities 0 and 255, all ready but the current
      one. */
  ghost function Duel(current: nat, v1: nat, t1: nat, v2: nat, t2: nat, tick: nat): (r: RunState)
    requires current < 3
    ensures FairStart(r)
  {
    var r := RunState([Pcb(Ready, 255, 0, 0, 0),
                       Pcb(if current == 1 then Running else Ready, 0, v1, t1, 0),
                       Pcb(if current == 2 then Running else Ready, 255, v2, t2, 0)], [1, 2], current, tick);
    assert r.queue[0] == 1 && r.queue[1] == 2;
    r
  }

  lemma DuelYields(s: RunState, front: seq<Event>, current: nat, v1: nat, t1: nat, v2: nat, t2: nat, tick: nat)
    returns (events: seq<Event>)
    requires FairStart(s) && (forall i :: 0 <= i < |front| ==> TickOrYield(front[i]))
    requires current < 3 && current != if v1 <= v2 then 1 else 2
    requires After(s, front) == Duel(current, v1, t1, v2, t2, tick)
    ensures events == front + [YieldEvent] && forall i :: 0 <= i < |events| ==> TickOrYield(events[i])
    ensures After(s, events) == Duel(if v1 <= v2 then 1 else 2, v1, t1, v2, t2, tick)
  {
    hide Weight, Yield;
    events := front + [YieldEvent];
    AfterYield(s, front);
    DuelAfterYield(current, v1, t1, v2, t2, tick);
  }

  lemma DuelAfterYield(current: nat, v1: nat, t1: nat, v2: nat, t2: nat, tick: nat)
    requires current < 3 && current != if v1 <= v2 then 1 else 2
    ensures Yield(Duel(current, v1, t1, v2, t2, tick)) == Duel(if v1 <= v2 then 1 else 2, v1, t1, v2, t2, tick)
  {
    hide FairStart, Weight;
    var s := Duel(current, v1, t1, v2, t2, tick);
    var procs := SetState(s.procs, current, Ready);
    assert PickFrom(procs, [1, 2], 2, if v1 <= v2 then 1 else 2, true) == if v1 <= v2 then 1 else 2;
    assert PickFrom(procs, [1, 2], 1, 1, true) == if v1 <= v2 then 1 else 2;
    assert PickNext(procs, [1, 2]) == if v1 <= v2 then 1 else 2;
    hide PickNext;
    assert Yield(s).procs == Duel(if v1 <= v2 then 1 else 2, v1, t1, v2, t2, tick).procs;
  }

  lemma DuelTicks(s: RunState, front: seq<Event>, current: nat, v1: nat, t1: nat, v2: nat, t2: nat, tick: nat)
    returns (events: seq<Event>)
    requires FairStart(s) && (forall i :: 0 <= i < |front| ==> TickOrYield(front[i]))
    requires 1 <= current <= 2 && v1 < 1000 && v2 < 1000 && t1 < 5 && t2 < 5
    requires After(s, front) == Duel(current, v1, t1, v2, t2, tick)
    ensures events == front + [TickEvent] && forall i :: 0 <= i < |events| ==> TickOrYield(events[i])
    ensures After(s, events) ==
            if current == 1 then Duel(1, v1 + 256, t1 + 1, v2, t2, tick + 1)
            else Duel(2, v1, t1, v2 + 1, t2 + 1, tick + 1)
  {
    hide Weight, Tick, Duel;
    events := front + [TickEvent];
    AfterTick(s, front);
    DuelAfterTick(current, v1, t1, v2, t2, tick);
  }

  lemma DuelAfterTick(current: nat, v1: nat, t1: nat, v2: nat, t2: nat, tick: nat)
    requires 1 <= current <= 2 && v1 < 1000 && v2 < 1000 && t1 < 5 && t2 < 5
    ensures Tick(Duel(current, v1, t1, v2, t2, tick)) ==
            if current == 1 then Duel(1, v1 + 256, t1 + 1, v2, t2, tick + 1)
            else Duel(2, v1, t1, v2 + 1, t2 + 1, tick + 1)
  {
    hide Tick, Charged, FairStart, Runnable, WellFormed, Weight;
    var s := Duel(current, v1, t1, v2, t2, tick);
    TickInQuantum(s);
    if current == 1 {
      FirstIsCharged(v1, t1, v2, t2, tick);
    } else {
      SecondIsCharged(v1, t1, v2, t2, tick);
    }
  }

  lemma TickInQuantum(s: RunState)
    requires FairStart(s) && s.procs[s.current].runtimeTicks < 9
    ensures Tick(s) == Charged(s)
  {
    hide Dispatch, Distinct, Weight, Tick;
    TickShape(s);
  }

  lemma FirstIsCharged(v1: nat, t1: nat, v2: nat, t2: nat, tick: nat)
    requires v1 < 1000
    ensures Charged(Duel(1, v1, t1, v2, t2, tick)) == Duel(1, v1 + 256, t1 + 1, v2, t2, tick + 1)
  {
    hide FairStart;
    assert Charged(Duel(1, v1, t1, v2, t2, tick)).procs == Duel(1, v1 + 256, t1 + 1, v2, t2, tick + 1).procs;
  }

  lemma SecondIsCharged(v1: nat, t1: nat, v2: nat, t2: nat, tick: nat)
    requires v2 < 1000
    ensures Charged(Duel(2, v1, t1, v2, t2, tick)) == Duel(2, v1, t1, v2 + 1, t2 + 1, tick + 1)
  {
    hide FairStart;
    assert Charged(Duel(2, v1, t1, v2, t2, tick)).procs == Duel(2, v1, t1, v2 + 1, t2 + 1, tick + 1).procs;
  }

  /** An instance: from the same virtual runtime the process with priority 0 has run 1 tick
      when the one with priority 255 has run 2 and keeps the CPU. */
  lemma SmallerNumberIsSlower() returns (events: seq<Event>)
    ensures events == [YieldEvent, TickEvent, YieldEvent, TickEvent, TickEvent]
    ensures After(Duel(0, 0, 0, 0, 0, 0), events) == Duel(2, 256, 1, 2, 2, 3)
  {
    hide Tick, Yield, Duel, After, FairStart, WellFormed;
    var s := Duel(0, 0, 0, 0, 0, 0);
    events := [];
    NothingYet(s);
    events := DuelYields(s, events, 0, 0, 0, 0, 0, 0);
    events := DuelTicks(s, events, 1, 0, 0, 0, 0, 0);
    events := DuelYields(s, events, 1, 256, 1, 0, 0, 1);
    events := DuelTicks(s, events, 2, 256, 1, 0, 0, 1);
    events := DuelTicks(s, events, 2, 256, 1, 1, 1, 2);
  }

  lemma NothingYet(s: RunState)
    requires FairStart(s)
    ensures After(s, []) == s
  {
  }
  lemma AfterYield(s: RunState, front: seq<Event>)
    requires WellFormed(s) && forall i :: 0 <= i < |front| ==> TickOrYield(front[i])
    ensures After(s, front + [YieldEvent]) == Yield(After(s, front))
  {
    assert (front + [YieldEvent])[..|front|] == front;
  }

  lemma AfterTick(s: RunState, front: seq<Event>)
    requires WellFormed(s) && forall i :: 0 <= i < |front| ==> TickOrYield(front[i])
    ensures After(s, front + [TickEvent]) == Tick(After(s, front))
  {
    assert (front + [TickEvent])[..|front|] == front;
  }
}
