/** What the calls of kernel/proc/sched.c mean for the processes, told by who runs next. */
module SchedCalls {
  import opened Sched

  /** Process `q` can be picked when the current process yields. */
  ghost predicate Runs(s: RunState, q: nat) {
    q < |s.procs| && (q == s.current || s.procs[q].state == Ready)
  }

  /** The process at position `i` is the earliest in the queue among those that can be picked and
      have least virtual runtime. */
  ghost predicate Preferred(s: RunState, i: nat)
    requires WellFormed(s)
  {
    && i < |s.queue| && Runs(s, s.queue[i])
    && forall j :: 0 <= j < |s.queue| && Runs(s, s.queue[j]) ==>
         && s.procs[s.queue[i]].vruntime <= s.procs[s.queue[j]].vruntime
         && (j < i ==> s.procs[s.queue[i]].vruntime < s.procs[s.queue[j]].vruntime)
  }

  /** Only the state of process `p` is changed, to `st`. */
  ghost predicate OnlyState(s: RunState, r: RunState, p: nat, st: State)
    requires p < |s.procs|
  {
    && |r.procs| == |s.procs| && r.queue == s.queue && r.current == s.current && r.tick == s.tick
    && r.procs[p] == s.procs[p].(state := st)
    && forall q :: 0 <= q < |s.procs| && q != p ==> r.procs[q] == s.procs[q]
  }

  // ---- yield ----

  /** `sched_yield`: the preferred process gets the CPU, the idle process when nobody queued can be
      picked.  The one that yields is ready, unless it goes on; the one that takes over is
      running; nothing else changes. */
  lemma YieldPicks(s: RunState)
    requires WellFormed(s)
    ensures var r := Yield(s);
            && ((exists i :: 0 <= i < |s.queue| && Preferred(s, i)) <==>
                exists i :: 0 <= i < |s.queue| && Runs(s, s.queue[i]))
            && (forall i :: 0 <= i < |s.queue| && Preferred(s, i) ==> r.current == s.queue[i])
            && ((forall i :: 0 <= i < |s.queue| ==> !Runs(s, s.queue[i])) ==> r.current == IDLE)
            && r.queue == s.queue && r.tick == s.tick
            && forall q :: 0 <= q < |s.procs| ==>
                 r.procs[q] == s.procs[q].(state :=
                   if q == s.current then Ready else if q == r.current then Running else s.procs[q].state)
  {
    var procs := SetState(s.procs, s.current, Ready);
    PickNextIsBest(procs, s.queue);
    BestIsPreferred(s);
    YieldChanges(s);
    hide PickNext, Distinct, IsBest, Preferred, NoneReady, Runs, SetState, Yield;
    if !NoneReady(procs, s.queue) {
      var k :| 0 <= k < |s.queue| && IsBest(procs, s.queue, k) && PickNext(procs, s.queue) == s.queue[k];
      forall i | 0 <= i < |s.queue| && Preferred(s, i)
        ensures i == k
      {
        OnePreferred(s, i, k);
      }
    }
  }

  lemma YieldChanges(s: RunState)
    requires WellFormed(s)
    ensures var r := Yield(s);
            && r.current == PickNext(SetState(s.procs, s.current, Ready), s.queue)
            && r.queue == s.queue && r.tick == s.tick
            && forall q :: 0 <= q < |s.procs| ==>
                 r.procs[q] == s.procs[q].(state :=
                   if q == s.current then Ready else if q == r.current then Running else s.procs[q].state)
  {
    hide PickNext, Distinct;
  }

  /** Once the current process is marked ready, those that can be picked are the ready ones. */
  lemma BestIsPreferred(s: RunState)
    requires WellFormed(s)
    ensures var procs := SetState(s.procs, s.current, Ready);
            && (forall i :: 0 <= i < |s.queue| ==> (IsBest(procs, s.queue, i) <==> Preferred(s, i)))
            && (NoneReady(procs, s.queue) <==> forall i :: 0 <= i < |s.queue| ==> !Runs(s, s.queue[i]))
            && (forall i :: 0 <= i < |s.queue| && Preferred(s, i) ==> Runs(s, s.queue[i]))
  {
    hide Distinct;
    var procs := SetState(s.procs, s.current, Ready);
    assert forall q :: 0 <= q < |procs| ==> (procs[q].state == Ready <==> Runs(s, q)) && procs[q].vruntime == s.procs[q].vruntime;
    hide Runs, SetState;
  }

  lemma OnePreferred(s: RunState, i: nat, k: nat)
    requires WellFormed(s) && Preferred(s, i) && Preferred(s, k)
    ensures i == k
  {
  }

  /** The process that runs after a yield could be picked, or is the idle process. */
  lemma YieldPicksRunnable(s: RunState, p: nat)
    requires WellFormed(s) && p != IDLE && Yield(s).current == p
    ensures p in s.queue && Runs(s, p)
  {
    YieldPicks(s);
    hide Yield, Preferred;
    if exists i :: 0 <= i < |s.queue| && Runs(s, s.queue[i]) {
      var i :| 0 <= i < |s.queue| && Preferred(s, i);
      PreferredRuns(s, i);
    }
  }

  lemma PreferredRuns(s: RunState, i: nat)
    requires WellFormed(s) && Preferred(s, i)
    ensures i < |s.queue| && Runs(s, s.queue[i])
  {
  }

  // ---- queueing ----

  /** `sched_add` puts a process at the end of the queue if it is ready, and does nothing if not. */
  lemma AddQueues(s: RunState, p: nat)
    requires WellFormed(s) && p < |s.procs|
    ensures var r := Add(s, p);
            && r.procs == s.procs && r.current == s.current && r.tick == s.tick
            && (s.procs[p].state == Ready <==> r.queue == s.queue + [p])
            && (s.procs[p].state != Ready <==> r.queue == s.queue)
  {
    assert |s.queue + [p]| == |s.queue| + 1;
  }

  /** A ready process that is added is the next to run if and only if its virtual runtime is below
      that of everybody queued who could be picked. */
  lemma AddThenYield(s: RunState, p: nat)
    requires WellFormed(s) && p < |s.procs| && p !in s.queue && s.procs[p].state == Ready
    ensures WellFormed(Add(s, p))
    ensures Yield(Add(s, p)).current == p <==>
            forall i :: 0 <= i < |s.queue| && Runs(s, s.queue[i]) ==>
              s.procs[p].vruntime < s.procs[s.queue[i]].vruntime
  {
    var a := Add(s, p);
    assert a.queue == s.queue + [p];
    YieldPicks(a);
    hide Yield;
    assert Runs(a, a.queue[|s.queue|]);
    var k :| 0 <= k < |a.queue| && Preferred(a, k);
    assert forall i :: 0 <= i < |s.queue| ==> a.queue[i] == s.queue[i] && (Runs(a, a.queue[i]) <==> Runs(s, s.queue[i]));
    if k < |s.queue| {
      assert s.queue[k] != p && Runs(s, s.queue[k]);
    } else {
      assert forall i :: 0 <= i < |s.queue| && Runs(s, s.queue[i]) ==> Runs(a, a.queue[i]);
    }
  }

  /** A new process that is added is the next to run if and only if everybody queued who could be
      picked has run before. */
  lemma SpawnThenYield(s: RunState, priority: nat)
    requires WellFormed(s) && priority < UINT32
    ensures var p, a := |s.procs|, Spawn(s, priority);
            && a.procs == s.procs + [a.procs[p]] && a.queue == s.queue && a.current == s.current && a.tick == s.tick
            && a.procs[p].state == Ready && a.procs[p].priority == priority && a.procs[p].runtimeTicks == 0
            && WellFormed(a) && p !in a.queue && WellFormed(Add(a, p)) && Add(a, p).queue == s.queue + [p]
            && (Yield(Add(a, p)).current == p <==>
                forall i :: 0 <= i < |s.queue| && Runs(s, s.queue[i]) ==> s.procs[s.queue[i]].vruntime > 0)
  {
    var p, a := |s.procs|, Spawn(s, priority);
    AddThenYield(a, p);
    hide Yield;
    assert forall i :: 0 <= i < |s.queue| ==> (Runs(a, a.queue[i]) <==> Runs(s, s.queue[i]));
  }

  /** A process that was removed from the queue does not run next. */
  lemma RemoveThenYield(s: RunState, i: nat)
    requires WellFormed(s) && i < |s.queue| && s.queue[i] != IDLE
    ensures WellFormed(Remove(s, i)) && s.queue[i] !in Remove(s, i).queue
    ensures |Remove(s, i).queue| == |s.queue| - 1
    ensures forall k :: 0 <= k < |s.queue| - 1 ==> Remove(s, i).queue[k] == s.queue[if k < i then k else k + 1]
    ensures Yield(Remove(s, i)).current != s.queue[i]
  {
    RemoveKeepsDistinct(s, i);
    var r := Remove(s, i);
    assert forall k :: 0 <= k < |r.queue| ==> r.queue[k] == s.queue[if k < i then k else k + 1];
    if Yield(r).current == s.queue[i] {
      YieldPicksRunnable(r, s.queue[i]);
    }
  }

  // ---- waking, stopping and continuing ----

  /** `sched_wake` makes exactly sleeping and blocked processes ready. */
  lemma WakeMakesReady(s: RunState, p: nat)
    requires WellFormed(s) && p < |s.procs|
    ensures var st := s.procs[p].state;
            && OnlyState(s, Wake(s, p), p, if st == Sleeping || st == Blocked then Ready else st)
            && (Wake(s, p).procs[p].state == Ready <==> st == Sleeping || st == Blocked || st == Ready)
  {
  }

  /** A blocked process does not run next; woken, it does if and only if nobody who could be picked
      has less virtual runtime, or as much and an earlier place. */
  lemma WakeThenYield(s: RunState, i: nat)
    requires WellFormed(s) && i < |s.queue|
    requires var p := s.queue[i]; p != IDLE && p != s.current && s.procs[p].state == Blocked
    ensures WellFormed(Wake(s, s.queue[i])) && Yield(s).current != s.queue[i]
    ensures Yield(Wake(s, s.queue[i])).current == s.queue[i] <==>
            forall j :: 0 <= j < |s.queue| && Runs(s, s.queue[j]) ==>
              && s.procs[s.queue[i]].vruntime <= s.procs[s.queue[j]].vruntime
              && (j < i ==> s.procs[s.queue[i]].vruntime < s.procs[s.queue[j]].vruntime)
  {
    var p := s.queue[i];
    var w := Wake(s, p);
    WakeMakesReady(s, p);
    if Yield(s).current == p {
      YieldPicksRunnable(s, p);
    }
    YieldPicks(w);
    PreferredOnceWoken(s, i);
    hide Yield, Wake, Distinct, Preferred;
    assert Runs(w, w.queue[i]);
    var k :| 0 <= k < |w.queue| && Preferred(w, k);
    DifferentPlaces(s, i, k);
  }

  lemma PreferredOnceWoken(s: RunState, i: nat)
    requires WellFormed(s) && i < |s.queue| && s.procs[s.queue[i]].state == Blocked
    ensures WellFormed(Wake(s, s.queue[i])) && Wake(s, s.queue[i]).queue == s.queue
    ensures Preferred(Wake(s, s.queue[i]), i) <==>
            forall j :: 0 <= j < |s.queue| && Runs(s, s.queue[j]) ==>
              && s.procs[s.queue[i]].vruntime <= s.procs[s.queue[j]].vruntime
              && (j < i ==> s.procs[s.queue[i]].vruntime < s.procs[s.queue[j]].vruntime)
  {
    var w := Wake(s, s.queue[i]);
    forall j | 0 <= j < |s.queue|
      ensures Runs(w, s.queue[j]) <==> j == i || Runs(s, s.queue[j])
    {
      DifferentPlaces(s, i, j);
    }
    hide Runs, Distinct;
  }

  lemma DifferentPlaces(s: RunState, i: nat, j: nat)
    requires WellFormed(s) && i < |s.queue| && j < |s.queue|
    ensures i != j ==> s.queue[i] != s.queue[j]
  {
  }

  /** SIGSTOP blocks; SIGCONT makes exactly a blocked process ready, so it undoes a stop. */
  lemma StopThenContinue(s: RunState, p: nat)
    requires WellFormed(s) && p < |s.procs|
    ensures OnlyState(s, Stop(s, p), p, Blocked)
    ensures OnlyState(s, Continue(s, p), p, if s.procs[p].state == Blocked then Ready else s.procs[p].state)
    ensures WellFormed(Stop(s, p)) && OnlyState(s, Continue(Stop(s, p), p), p, Ready)
  {
  }

  /** A process that is stopped by another does not run next. */
  lemma StopThenYield(s: RunState, p: nat)
    requires WellFormed(s) && p < |s.procs| && p != IDLE && p != s.current
    ensures WellFormed(Stop(s, p)) && Yield(Stop(s, p)).current != p
  {
    if Yield(Stop(s, p)).current == p {
      YieldPicksRunnable(Stop(s, p), p);
    }
  }

  // ---- ticks ----

  /** The counters and the waking of `sched_tick`: one tick for the current process, whose virtual
      runtime grows by 256 minus its priority modulo 2^32; exactly the queued sleepers whose
      time has come become ready. */
  lemma TickCounts(s: RunState)
    requires WellFormed(s)
    ensures var r, c := Ticked(s), s.procs[s.current];
            && r.tick == s.tick + 1 && r.queue == s.queue && r.current == s.current
            && r.procs[s.current].runtimeTicks == c.runtimeTicks + 1
            && (c.priority <= 256 ==> r.procs[s.current].vruntime == (c.vruntime + 256 - c.priority) % 0x1_0000_0000)
            && (forall q :: 0 <= q < |s.procs| && q != s.current ==>
                  r.procs[q].runtimeTicks == s.procs[q].runtimeTicks && r.procs[q].vruntime == s.procs[q].vruntime)
            && forall q :: 0 <= q < |s.procs| ==>
                 && r.procs[q].priority == s.procs[q].priority && r.procs[q].sleepUntil == s.procs[q].sleepUntil
                 && r.procs[q].state ==
                    if q in s.queue && s.procs[q].state == Sleeping && s.tick + 1 >= s.procs[q].sleepUntil
                    then Ready else s.procs[q].state
  {
    hide Distinct, WakeAll, Weight;
    var c := Counted(s);
    ChargeMeans(s.procs[s.current]);
    assert Ticked(s).procs == WakeAll(c.procs, s.queue, s.tick + 1);
    forall q | 0 <= q < |s.procs|
      ensures Ticked(s).procs[q] ==
              if q in s.queue && c.procs[q].state == Sleeping && s.tick + 1 >= c.procs[q].sleepUntil
              then c.procs[q].(state := Ready) else c.procs[q]
    {
      WakeAt(c.procs, s.queue, s.tick + 1, q);
    }
    hide Ticked, Counted, Charge;
  }

  lemma ChargeMeans(p: Pcb)
    requires p.priority < UINT32
    ensures Charge(p).runtimeTicks == p.runtimeTicks + 1 && Charge(p).priority == p.priority
    ensures Charge(p).state == p.state && Charge(p).sleepUntil == p.sleepUntil
    ensures p.priority <= 256 ==> Charge(p).vruntime == (p.vruntime + 256 - p.priority) % 0x1_0000_0000
  {
    assert p.priority <= 256 ==> Weight(p.priority) == 256 - p.priority;
  }

  lemma WakeAt(procs: seq<Pcb>, queue: seq<nat>, tick: nat, q: nat)
    requires q < |procs|
    ensures WakeAll(procs, queue, tick)[q] ==
            if q in queue && procs[q].state == Sleeping && tick >= procs[q].sleepUntil
            then procs[q].(state := Ready) else procs[q]
  {
  }

  /** Only every tenth tick of a process ends its turn, and then `sched_tick` hands over as if the
      process had yielded. */
  lemma TickHandsOver(s: RunState)
    requires WellFormed(s)
    ensures var ticks := s.procs[s.current].runtimeTicks + 1;
            && (ticks % 10 != 0 ==> Tick(s) == Ticked(s))
            && (ticks % 10 == 0 && Ticked(s).procs[s.current].state in {Running, Ready} ==>
                  Tick(s) == Yield(Ticked(s)))
  {
    TickCounts(s);
    var t := Ticked(s);
    hide Ticked, Dispatch, Distinct;
    if t.procs[s.current].state == Ready {
      assert SetState(t.procs, s.current, Ready) == t.procs;
    }
  }

  /** A process that is no longer running or ready loses the CPU at the end of its turn to the
      earliest ready process of least virtual runtime, and keeps its state. */
  lemma TickLeavesBlocked(s: RunState)
    requires WellFormed(s) && (s.procs[s.current].runtimeTicks + 1) % 10 == 0
    requires Ticked(s).procs[s.current].state !in {Running, Ready} && s.current != IDLE
    ensures var t, r := Ticked(s), Tick(s);
            && r.current != s.current && r.procs[s.current] == t.procs[s.current]
            && (NoneReady(t.procs, t.queue) ==> r.current == IDLE)
            && (forall i :: 0 <= i < |t.queue| && IsBest(t.procs, t.queue, i) ==> r.current == t.queue[i])
  {
    TickCounts(s);
    var t := Ticked(s);
    PickNextIsBest(t.procs, t.queue);
    hide Ticked, Distinct, PickNext;
    forall i | 0 <= i < |t.queue| && IsBest(t.procs, t.queue, i)
      ensures PickNext(t.procs, t.queue) == t.queue[i]
    {
    }
  }

  // ---- zombies ----

  /** `p` has exited and is not on the CPU. */
  ghost predicate Gone(s: RunState, p: nat) {
    p < |s.procs| && p != IDLE && p != s.current && s.procs[p].state == Zombie
  }

  lemma DispatchSkips(s: RunState, p: nat)
    requires WellFormed(s) && Gone(s, p)
    ensures Gone(Dispatch(s), p)
  {
    hide PickFrom, Distinct;
    PickNextIsBest(s.procs, s.queue);
  }

  lemma ZombieStep(s: RunState, e: Event, p: nat)
    requires WellFormed(s) && Allowed(s, e) && e != StopEvent(p) && Gone(s, p)
    ensures Gone(Step(s, e), p)
  {
    hide Dispatch, Ticked, Distinct;
    match e {
      case TickEvent =>
        TickCounts(s);
        var t := Ticked(s);
        if t.procs[t.current].runtimeTicks % QUANTUM == 0 {
          DispatchSkips(if t.procs[t.current].state == Running then t.(procs := SetState(t.procs, t.current, Ready)) else t, p);
        }
      case YieldEvent => YieldSkips(s, p);
      case SleepEvent(ms) =>
        YieldSkips(s.(procs := s.procs[s.current := s.procs[s.current].(state := Sleeping, sleepUntil := s.tick + ms)]), p);
      case ExitEvent(q) => YieldSkips(s.(procs := SetState(s.procs, q, Zombie)), p);
      case _ =>
    }
  }

  lemma YieldSkips(s: RunState, p: nat)
    requires WellFormed(s) && Gone(s, p)
    ensures Gone(Yield(s), p)
  {
    DispatchSkips(s.(procs := SetState(s.procs, s.current, Ready)), p);
  }

  /** A process that exited while another was current never runs again and stays a zombie, over any
      run in which nobody stops it (a stopped zombie can be continued). */
  lemma {:induction false} ZombieNeverRuns(states: seq<RunState>, events: seq<Event>, p: nat, n: nat)
    requires IsRun(states, events) && n < |states|
    requires Gone(states[0], p)
    requires forall i :: 0 <= i < |events| ==> events[i] != StopEvent(p)
    ensures Gone(states[n], p)
  {
    if n > 0 {
      ZombieNeverRuns(states, events, p, n - 1);
      hide Step, Gone;
      ZombieStep(states[n - 1], events[n - 1], p);
    }
  }

  /** Unless somebody does: stop and continue make a zombie ready. */
  lemma StoppedZombieRuns(s: RunState, p: nat)
    requires WellFormed(s) && p < |s.procs| && s.procs[p].state == Zombie
    ensures WellFormed(Stop(s, p)) && Continue(Stop(s, p), p).procs[p].state == Ready
  {
    StopThenContinue(s, p);
  }
}
