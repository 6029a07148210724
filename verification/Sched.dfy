/** kernel/proc/sched.c as steps on a table of process control blocks: the run queue is a
    sequence of process ids, process 0 is the idle process. */
module Sched {

  const QUANTUM: nat := 10
  const UINT32: nat := 0x1_0000_0000
  const IDLE: nat := 0

  datatype State = Created | Ready | Running | Blocked | Sleeping | Zombie | Dead

  datatype Pcb = Pcb(state: State, priority: nat, vruntime: nat, runtimeTicks: nat, sleepUntil: nat)

  datatype RunState = RunState(procs: seq<Pcb>, queue: seq<nat>, current: nat, tick: nat)

  ghost predicate Distinct(queue: seq<nat>) {
    forall i, j :: 0 <= i < j < |queue| ==> queue[i] != queue[j]
  }

  ghost predicate WellFormed(s: RunState) {
    && IDLE < |s.procs| && s.current < |s.procs|
    && (forall i :: 0 <= i < |s.queue| ==> s.queue[i] < |s.procs|)
    && Distinct(s.queue)
    && forall p :: 0 <= p < |s.procs| ==> s.procs[p].priority < UINT32
  }

  /** `255 - priority + 1` on 32-bit unsigned numbers. */
  function Weight(priority: nat): nat
    requires priority < UINT32
  {
    (UINT32 + 256 - priority) % UINT32
  }

  // ---- choosing the next process ----

  /** The search of `pick_next` over the queue from position `i` on, given the best process
      so far. */
  function PickFrom(procs: seq<Pcb>, queue: seq<nat>, i: nat, best: nat, found: bool): nat
    requires forall j :: 0 <= j < |queue| ==> queue[j] < |procs|
    requires found ==> best < |procs|
    decreases |queue| - i
  {
    if i >= |queue| then (if found then best else IDLE)
    else
      var p := queue[i];
      if procs[p].state == Ready && (!found || procs[p].vruntime < procs[best].vruntime)
      then PickFrom(procs, queue, i + 1, p, true)
      else PickFrom(procs, queue, i + 1, best, found)
  }

  function PickNext(procs: seq<Pcb>, queue: seq<nat>): nat
    requires forall j :: 0 <= j < |queue| ==> queue[j] < |procs|
  {
    PickFrom(procs, queue, 0, IDLE, false)
  }

  /** `p` sits at position `i` and is the earliest of the ready processes with the least
      virtual runtime. */
  ghost predicate IsBest(procs: seq<Pcb>, queue: seq<nat>, i: nat)
    requires forall j :: 0 <= j < |queue| ==> queue[j] < |procs|
  {
    && i < |queue| && procs[queue[i]].state == Ready
    && (forall j :: 0 <= j < |queue| && procs[queue[j]].state == Ready ==>
          procs[queue[i]].vruntime <= procs[queue[j]].vruntime)
    && (forall j :: 0 <= j < i && procs[queue[j]].state == Ready ==>
          procs[queue[i]].vruntime < procs[queue[j]].vruntime)
  }

  ghost predicate NoneReady(procs: seq<Pcb>, queue: seq<nat>)
    requires forall j :: 0 <= j < |queue| ==> queue[j] < |procs|
  {
    forall j :: 0 <= j < |queue| ==> procs[queue[j]].state != Ready
  }

  /** A ready process that is first, or strictly less than the best so far, is the best. */
  lemma NewBest(procs: seq<Pcb>, queue: seq<nat>, i: nat, b: nat, found: bool)
    requires forall j :: 0 <= j < |queue| ==> queue[j] < |procs|
    requires i < |queue| && procs[queue[i]].state == Ready
    requires found ==> b < i && IsBest(procs, queue[..i], b) && procs[queue[i]].vruntime < procs[queue[b]].vruntime
    requires !found ==> NoneReady(procs, queue[..i])
    ensures IsBest(procs, queue[..i + 1], i)
  {
    forall j | 0 <= j < i && procs[queue[j]].state == Ready
      ensures procs[queue[i]].vruntime < procs[queue[j]].vruntime
    {
      assert queue[..i][j] == queue[j];
    }
  }

  /** Any other process leaves the best so far. */
  lemma SameBest(procs: seq<Pcb>, queue: seq<nat>, i: nat, b: nat, found: bool)
    requires forall j :: 0 <= j < |queue| ==> queue[j] < |procs|
    requires i < |queue|
    requires procs[queue[i]].state == Ready ==> found && b < i && procs[queue[b]].vruntime <= procs[queue[i]].vruntime
    requires found ==> b < i && IsBest(procs, queue[..i], b)
    requires !found ==> NoneReady(procs, queue[..i])
    ensures found ==> IsBest(procs, queue[..i + 1], b)
    ensures !found ==> NoneReady(procs, queue[..i + 1])
  {
    forall j | 0 <= j < i
      ensures queue[..i][j] == queue[..i + 1][j]
    {
    }
  }

  lemma {:induction false} PickFromIsBest(procs: seq<Pcb>, queue: seq<nat>, i: nat, b: nat, found: bool)
    requires forall j :: 0 <= j < |queue| ==> queue[j] < |procs|
    requires i <= |queue|
    requires found ==> b < i && IsBest(procs, queue[..i], b)
    requires !found ==> NoneReady(procs, queue[..i])
    ensures var best := PickFrom(procs, queue, i, if found then queue[b] else IDLE, found);
            if NoneReady(procs, queue) then best == IDLE
            else exists k :: 0 <= k < |queue| && IsBest(procs, queue, k) && best == queue[k]
    decreases |queue| - i
  {
    if i == |queue| {
      assert queue[..i] == queue;
    } else {
      hide IsBest, NoneReady;
      var p := queue[i];
      if procs[p].state == Ready && (!found || procs[p].vruntime < procs[queue[b]].vruntime) {
        NewBest(procs, queue, i, b, found);
        PickFromIsBest(procs, queue, i + 1, i, true);
      } else {
        SameBest(procs, queue, i, b, found);
        PickFromIsBest(procs, queue, i + 1, b, found);
      }
    }
  }

  /** `pick_next` returns the earliest ready process of least virtual runtime, and the idle
      process exactly when none is ready. */
  lemma PickNextIsBest(procs: seq<Pcb>, queue: seq<nat>)
    requires forall j :: 0 <= j < |queue| ==> queue[j] < |procs|
    ensures NoneReady(procs, queue) ==> PickNext(procs, queue) == IDLE
    ensures !NoneReady(procs, queue) ==>
              exists k :: 0 <= k < |queue| && IsBest(procs, queue, k) && PickNext(procs, queue) == queue[k]
  {
    PickFromIsBest(procs, queue, 0, 0, false);
  }

  lemma PickInTable(procs: seq<Pcb>, queue: seq<nat>)
    requires IDLE < |procs| && forall j :: 0 <= j < |queue| ==> queue[j] < |procs|
    ensures PickNext(procs, queue) < |procs|
  {
    PickNextIsBest(procs, queue);
  }

  // ---- steps ----

  function SetState(procs: seq<Pcb>, p: nat, st: State): seq<Pcb>
    requires p < |procs|
  {
    procs[p := procs[p].(state := st)]
  }

  /** The hand-over at the end of `sched_tick` and `sched_yield`. */
  function Dispatch(s: RunState): (r: RunState)
    requires WellFormed(s)
    ensures WellFormed(r) && |r.procs| == |s.procs| && r.queue == s.queue
  {
    PickInTable(s.procs, s.queue);
    var next := PickNext(s.procs, s.queue);
    if next == s.current then s
    else s.(current := next, procs := SetState(s.procs, next, Running))
  }

  /** A sleeper whose time has come. */
  function Woken(p: Pcb, tick: nat): Pcb {
    if p.state == Sleeping && tick >= p.sleepUntil then p.(state := Ready) else p
  }

  /** The waking loop of `sched_tick`. */
  function WakeAll(procs: seq<Pcb>, queue: seq<nat>, tick: nat): (r: seq<Pcb>)
    ensures |r| == |procs|
  {
    seq(|procs|, p requires 0 <= p < |procs| => if p in queue then Woken(procs[p], tick) else procs[p])
  }

  /** One timer tick charged to the current process. */
  function Charge(p: Pcb): Pcb
    requires p.priority < UINT32
  {
    p.(runtimeTicks := p.runtimeTicks + 1, vruntime := (p.vruntime + Weight(p.priority)) % UINT32)
  }

  /** The counters of `sched_tick`. */
  function Counted(s: RunState): (r: RunState)
    requires WellFormed(s)
    ensures WellFormed(r) && |r.procs| == |s.procs| && r.queue == s.queue && r.current == s.current
  {
    s.(procs := s.procs[s.current := Charge(s.procs[s.current])], tick := s.tick + 1)
  }

  /** The waking loop of `sched_tick`. */
  function Awakened(s: RunState): (r: RunState)
    requires WellFormed(s)
    ensures WellFormed(r) && |r.procs| == |s.procs| && r.queue == s.queue && r.current == s.current
  {
    s.(procs := WakeAll(s.procs, s.queue, s.tick))
  }

  /** The part of `sched_tick` before the quantum test. */
  function Ticked(s: RunState): (r: RunState)
    requires WellFormed(s)
    ensures WellFormed(r) && |r.procs| == |s.procs| && r.queue == s.queue && r.current == s.current
  {
    Awakened(Counted(s))
  }

  /** `sched_tick` */
  function Tick(s: RunState): (r: RunState)
    requires WellFormed(s)
    ensures WellFormed(r) && |r.procs| == |s.procs| && r.queue == s.queue
  {
    var s1 := Ticked(s);
    var cur := s1.procs[s1.current];
    if cur.runtimeTicks % QUANTUM != 0 then s1
    else Dispatch(if cur.state == Running then s1.(procs := SetState(s1.procs, s1.current, Ready)) else s1)
  }

  /** `sched_yield` */
  function Yield(s: RunState): (r: RunState)
    requires WellFormed(s)
    ensures WellFormed(r) && |r.procs| == |s.procs| && r.queue == s.queue
  {
    Dispatch(s.(procs := SetState(s.procs, s.current, Ready)))
  }

  /** `sched_sleep` */
  function Sleep(s: RunState, ms: nat): (r: RunState)
    requires WellFormed(s)
    ensures WellFormed(r) && |r.procs| == |s.procs| && r.queue == s.queue
  {
    Yield(s.(procs := s.procs[s.current := s.procs[s.current].(state := Sleeping, sleepUntil := s.tick + ms)]))
  }

  /** `sched_wake` */
  function Wake(s: RunState, p: nat): RunState
    requires WellFormed(s) && p < |s.procs|
  {
    if s.procs[p].state == Sleeping || s.procs[p].state == Blocked
    then s.(procs := SetState(s.procs, p, Ready)) else s
  }

  /** `sched_add` of a process that is not queued. */
  function Add(s: RunState, p: nat): RunState
    requires WellFormed(s) && p < |s.procs|
  {
    if s.procs[p].state != Ready then s else s.(queue := s.queue + [p])
  }

  /** `sched_remove` of the process at position `i`. */
  function Remove(s: RunState, i: nat): RunState
    requires WellFormed(s) && i < |s.queue|
  {
    s.(queue := s.queue[..i] + s.queue[i + 1..])
  }

  /** `proc_exit` */
  function Exit(s: RunState, p: nat): (r: RunState)
    requires WellFormed(s) && p < |s.procs|
    ensures WellFormed(r) && |r.procs| == |s.procs| && r.queue == s.queue
  {
    Yield(s.(procs := SetState(s.procs, p, Zombie)))
  }

  /** `SIGSTOP` */
  function Stop(s: RunState, p: nat): RunState
    requires WellFormed(s) && p < |s.procs|
  {
    s.(procs := SetState(s.procs, p, Blocked))
  }

  /** `SIGCONT` */
  function Continue(s: RunState, p: nat): RunState
    requires WellFormed(s) && p < |s.procs|
  {
    if s.procs[p].state == Blocked then s.(procs := SetState(s.procs, p, Ready)) else s
  }

  /** `proc_create`: slots are never freed, so a new process takes the next one. */
  function Spawn(s: RunState, priority: nat): RunState
    requires WellFormed(s) && priority < UINT32
  {
    s.(procs := s.procs + [Pcb(Ready, priority, 0, 0, 0)])
  }

  // ---- runs ----

  datatype Event =
    | TickEvent | YieldEvent | SleepEvent(ms: nat) | WakeEvent(p: nat) | AddEvent(p: nat) | RemoveEvent(i: nat)
    | ExitEvent(p: nat) | StopEvent(p: nat) | ContinueEvent(p: nat) | SpawnEvent(priority: nat)

  /** What the callers of the scheduler owe: existing processes, no double insertion. */
  ghost predicate Allowed(s: RunState, e: Event) {
    match e
    case WakeEvent(p) => p < |s.procs|
    case AddEvent(p) => p < |s.procs| && p !in s.queue
    case RemoveEvent(i) => i < |s.queue|
    case ExitEvent(p) => p < |s.procs|
    case StopEvent(p) => p < |s.procs|
    case ContinueEvent(p) => p < |s.procs|
    case SpawnEvent(priority) => priority < UINT32
    case _ => true
  }

  ghost function Step(s: RunState, e: Event): RunState
    requires WellFormed(s) && Allowed(s, e)
  {
    match e
    case TickEvent => Tick(s)
    case YieldEvent => Yield(s)
    case SleepEvent(ms) => Sleep(s, ms)
    case WakeEvent(p) => Wake(s, p)
    case AddEvent(p) => Add(s, p)
    case RemoveEvent(i) => Remove(s, i)
    case ExitEvent(p) => Exit(s, p)
    case StopEvent(p) => Stop(s, p)
    case ContinueEvent(p) => Continue(s, p)
    case SpawnEvent(priority) => Spawn(s, priority)
  }

  /** `states` is a run of the scheduler under `events`. */
  ghost predicate IsRun(states: seq<RunState>, events: seq<Event>) {
    && |states| == |events| + 1
    && forall i :: 0 <= i < |events| ==>
         WellFormed(states[i]) && Allowed(states[i], events[i]) && states[i + 1] == Step(states[i], events[i])
  }

  // ---- what every step keeps ----

  function SumTicks(procs: seq<Pcb>): nat {
    if procs == [] then 0 else SumTicks(procs[..|procs| - 1]) + procs[|procs| - 1].runtimeTicks
  }

  /** All CPU time is charged to somebody, virtual runtime is weighted CPU time, only the
      current process is marked running, and nobody is asleep. */
  ghost predicate Accounted(s: RunState) {
    && WellFormed(s)
    && SumTicks(s.procs) == s.tick
    && (forall p :: 0 <= p < |s.procs| ==>
          s.procs[p].vruntime == s.procs[p].runtimeTicks * Weight(s.procs[p].priority) % UINT32)
    && (forall p :: 0 <= p < |s.procs| && s.procs[p].state == Running ==> p == s.current)
    && (forall p :: 0 <= p < |s.procs| ==> s.procs[p].state != Sleeping)
  }

  lemma {:induction false} SumTicksUpdate(procs: seq<Pcb>, p: nat, b: Pcb)
    requires p < |procs|
    ensures SumTicks(procs[p := b]) == SumTicks(procs) - procs[p].runtimeTicks + b.runtimeTicks
  {
    var last := |procs| - 1;
    if p == last {
      assert procs[p := b][..last] == procs[..last];
    } else {
      assert procs[p := b][..last] == procs[..last][p := b];
      SumTicksUpdate(procs[..last], p, b);
    }
  }

  lemma {:induction false} SumTicksSame(a: seq<Pcb>, b: seq<Pcb>)
    requires |a| == |b| && forall p :: 0 <= p < |a| ==> a[p].runtimeTicks == b[p].runtimeTicks
    ensures SumTicks(a) == SumTicks(b)
  {
    if a != [] {
      SumTicksSame(a[..|a| - 1], b[..|b| - 1]);
    }
  }

  lemma ModuloStep(x: nat, w: nat, t: nat)
    requires x == t * w % UINT32
    ensures (x + w) % UINT32 == (t + 1) * w % UINT32
  {
    var q := t * w / UINT32;
    assert (t + 1) * w == q * UINT32 + (x + w);
    ModuloOfSum(q, x + w);
  }

  lemma {:induction false} ModuloOfSum(q: nat, y: nat)
    ensures (q * UINT32 + y) % UINT32 == y % UINT32
  {
    if q > 0 {
      ModuloOfSum(q - 1, y);
      assert q * UINT32 + y == UINT32 + ((q - 1) * UINT32 + y);
    }
  }

  /** Changing one state (other than to sleeping or running) keeps the accounts. */
  lemma SetStateKeeps(s: RunState, p: nat, st: State)
    requires Accounted(s) && p < |s.procs| && st != Sleeping && st != Running
    ensures Accounted(s.(procs := SetState(s.procs, p, st)))
  {
    SumTicksSame(s.procs, SetState(s.procs, p, st));
  }

  /** The hand-over keeps the accounts once the old process is no longer marked running. */
  lemma DispatchKeeps(s: RunState)
    requires Accounted(s) && s.procs[s.current].state != Running
    ensures Accounted(Dispatch(s))
  {
    PickInTable(s.procs, s.queue);
    var next := PickNext(s.procs, s.queue);
    SumTicksSame(s.procs, SetState(s.procs, next, Running));
  }

  lemma YieldKeeps(s: RunState)
    requires WellFormed(s) && Accounted(s.(procs := SetState(s.procs, s.current, Ready)))
    ensures Accounted(Yield(s))
  {
    DispatchKeeps(s.(procs := SetState(s.procs, s.current, Ready)));
  }

  lemma ChargeKeeps(s: RunState)
    requires Accounted(s)
    ensures Accounted(s.(procs := s.procs[s.current := Charge(s.procs[s.current])], tick := s.tick + 1))
  {
    var c := s.procs[s.current];
    SumTicksUpdate(s.procs, s.current, Charge(c));
    ModuloStep(c.vruntime, Weight(c.priority), c.runtimeTicks);
  }

  lemma NobodyWakes(procs: seq<Pcb>, queue: seq<nat>, tick: nat)
    requires forall p :: 0 <= p < |procs| ==> procs[p].state != Sleeping
    ensures WakeAll(procs, queue, tick) == procs
  {
  }

  lemma TickKeeps(s: RunState)
    requires Accounted(s)
    ensures Accounted(Tick(s))
  {
    hide SumTicks, Distinct, PickFrom, Weight, WakeAll;
    ChargeKeeps(s);
    var charged := s.procs[s.current := Charge(s.procs[s.current])];
    NobodyWakes(charged, s.queue, s.tick + 1);
    var s1 := s.(procs := charged, tick := s.tick + 1);
    if charged[s.current].runtimeTicks % QUANTUM == 0 {
      if charged[s.current].state == Running {
        SetStateKeeps(s1, s.current, Ready);
        DispatchKeeps(s1.(procs := SetState(charged, s.current, Ready)));
      } else {
        DispatchKeeps(s1);
      }
    }
  }

  lemma AddKeeps(s: RunState, p: nat)
    requires Accounted(s) && p < |s.procs| && p !in s.queue
    ensures Accounted(Add(s, p))
  {
  }

  lemma ExitKeeps(s: RunState, p: nat)
    requires Accounted(s) && p < |s.procs|
    ensures Accounted(Exit(s, p))
  {
    var z := s.(procs := SetState(s.procs, p, Zombie));
    SetStateKeeps(s, p, Zombie);
    SetStateKeeps(z, z.current, Ready);
    YieldKeeps(z);
  }

  lemma SpawnKeeps(s: RunState, priority: nat)
    requires Accounted(s) && priority < UINT32
    ensures Accounted(Spawn(s, priority))
  {
    hide Weight, SumTicks;
    SpawnKeepsSum(s.procs, Pcb(Ready, priority, 0, 0, 0));
    assert 0 * Weight(priority) % UINT32 == 0;
  }

  /** Every scheduler operation keeps the accounts. */
  lemma StepKeeps(s: RunState, e: Event)
    requires Accounted(s) && Allowed(s, e)
    ensures Accounted(Step(s, e))
  {
    hide SumTicks, Tick, Dispatch, Distinct, Exit, Spawn, Sleep, Add;
    match e
    case TickEvent => TickKeeps(s);
    case YieldEvent =>
      SetStateKeeps(s, s.current, Ready);
      YieldKeeps(s);
    case SleepEvent(ms) => SleepIsYield(s, ms);
    case WakeEvent(p) => SetStateKeeps(s, p, Ready);
    case AddEvent(p) => AddKeeps(s, p);
    case RemoveEvent(i) => RemoveKeepsDistinct(s, i);
    case ExitEvent(p) => ExitKeeps(s, p);
    case StopEvent(p) => SetStateKeeps(s, p, Blocked);
    case ContinueEvent(p) => SetStateKeeps(s, p, Ready);
    case SpawnEvent(priority) => SpawnKeeps(s, priority);
  }

  lemma SpawnKeepsSum(procs: seq<Pcb>, b: Pcb)
    ensures SumTicks(procs + [b]) == SumTicks(procs) + b.runtimeTicks
  {
    assert (procs + [b])[..|procs|] == procs;
  }

  lemma RemoveKeepsDistinct(s: RunState, i: nat)
    requires WellFormed(s) && i < |s.queue|
    ensures WellFormed(Remove(s, i))
  {
    var q := s.queue[..i] + s.queue[i + 1..];
    assert forall k :: 0 <= k < |q| ==> q[k] == s.queue[if k < i then k else k + 1];
  }

  lemma SleepIsYield(s: RunState, ms: nat)
    requires Accounted(s)
    ensures Accounted(Sleep(s, ms))
  {
    hide SumTicks, Distinct, Dispatch;
    var c := s.procs[s.current];
    var z := s.(procs := s.procs[s.current := c.(state := Sleeping, sleepUntil := s.tick + ms)]);
    var r := z.(procs := SetState(z.procs, z.current, Ready));
    SumTicksSame(s.procs, r.procs);
    YieldKeeps(z);
  }

  /** The scheduler as it is when only the idle process exists. */
  function BootState(): RunState {
    RunState([Pcb(Ready, 255, 0, 0, 0)], [], IDLE, 0)
  }

  /** In every reachable state the accounts hold: in particular a process is never asleep,
      because `sched_sleep` hands over through `sched_yield`, which marks it ready again. */
  lemma {:induction false} ReachableIsAccounted(states: seq<RunState>, events: seq<Event>, n: nat)
    requires IsRun(states, events) && states[0] == BootState() && n < |states|
    ensures Accounted(states[n])
  {
    if n == 0 {
      assert SumTicks(states[0].procs[..0]) == 0;
    } else {
      ReachableIsAccounted(states, events, n - 1);
      StepKeeps(states[n - 1], events[n - 1]);
    }
  }

  // ---- what sleeping and exiting really do ----

  /** Going to sleep does not keep a process off the queue: it comes out ready, and it stays
      on the CPU exactly when the search picks it again. */
  lemma SleepIsUndone(s: RunState, ms: nat)
    requires WellFormed(s)
    ensures Sleep(s, ms).procs[s.current].state == Ready
    ensures Sleep(s, ms).current == s.current <==> Yield(s).current == s.current
    ensures var r, y := Sleep(s, ms), Yield(s);
            && r.current == y.current && r.queue == y.queue && r.tick == y.tick
            && r.procs == y.procs[s.current := y.procs[s.current].(sleepUntil := s.tick + ms)]
  {
    var z := s.(procs := s.procs[s.current := s.procs[s.current].(state := Sleeping, sleepUntil := s.tick + ms)]);
    var a, b := SetState(z.procs, s.current, Ready), SetState(s.procs, s.current, Ready);
    PickIgnoresSleepUntil(a, b, s.queue, 0, IDLE, false);
  }

  lemma {:induction false} PickIgnoresSleepUntil(
      a: seq<Pcb>, b: seq<Pcb>, queue: seq<nat>, i: nat, best: nat, found: bool)
    requires |a| == |b| && forall p :: 0 <= p < |a| ==> a[p].state == b[p].state && a[p].vruntime == b[p].vruntime
    requires forall j :: 0 <= j < |queue| ==> queue[j] < |a|
    requires found ==> best < |a|
    ensures PickFrom(a, queue, i, best, found) == PickFrom(b, queue, i, best, found)
    decreases |queue| - i
  {
    if i < |queue| {
      var p := queue[i];
      if a[p].state == Ready && (!found || a[p].vruntime < a[best].vruntime) {
        PickIgnoresSleepUntil(a, b, queue, i + 1, p, true);
      } else {
        PickIgnoresSleepUntil(a, b, queue, i + 1, best, found);
      }
    }
  }

  /** Exiting leaves a zombie if and only if the process was not the current one (the idle
      fallback aside): `sched_yield` marks the current process ready. */
  lemma ExitOnlyOthers(s: RunState, p: nat)
    requires WellFormed(s) && p < |s.procs| && p != IDLE
    ensures Exit(s, p).procs[p].state == Zombie <==> p != s.current
  {
    var z := s.(procs := SetState(s.procs, p, Zombie));
    var r := SetState(z.procs, z.current, Ready);
    PickNextIsBest(r, s.queue);
  }
}
