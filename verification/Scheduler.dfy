/** kernel/proc/sched.c in place: process control blocks on a doubly linked run queue.  Each
    method is the step of the same name of module Sched on the abstract state. */
module Scheduler {
  import opened Sched

  /** A process control block (the fields that the scheduler uses). */
  class Process {
    const pid: nat
    const priority: nat
    var state: State
    var vruntime: nat
    var runtimeTicks: nat
    var sleepUntil: nat
    var next: Process?
    var prev: Process?

    constructor (pid: nat, priority: nat)
      ensures this.pid == pid && this.priority == priority
      ensures View() == Pcb(Ready, priority, 0, 0, 0) && next == null && prev == null
    {
      this.pid, this.priority := pid, priority;
      state, vruntime, runtimeTicks, sleepUntil := Ready, 0, 0, 0;
      next, prev := null, null;
    }

    ghost function View(): Pcb
      reads this`state, this`vruntime, this`runtimeTicks, this`sleepUntil
    {
      Pcb(state, priority, vruntime, runtimeTicks, sleepUntil)
    }
  }

  ghost function Views(table: seq<Process>): (r: seq<Pcb>)
    reads table`state, table`vruntime, table`runtimeTicks, table`sleepUntil
    ensures |r| == |table| && forall i :: 0 <= i < |table| ==> r[i] == table[i].View()
  {
    if table == [] then [] else Views(table[..|table| - 1]) + [table[|table| - 1].View()]
  }

  lemma ViewsExtend(table: seq<Process>, p: Process)
    ensures Views(table + [p]) == Views(table) + [p.View()]
  {
    assert (table + [p])[..|table|] == table;
  }

  ghost function Pids(queue: seq<Process>): (r: seq<nat>)
    ensures |r| == |queue| && forall i :: 0 <= i < |queue| ==> r[i] == queue[i].pid
  {
    seq(|queue|, i requires 0 <= i < |queue| => queue[i].pid)
  }

  class RunQueue {
    var table: seq<Process>
    var head: Process?
    var tail: Process?
    var count: nat
    var current: Process
    var tick: nat
    ghost var queue: seq<Process>

    /** Process ids are table positions. */
    ghost predicate TableOk()
      reads this`table
    {
      && table != []
      && forall i :: 0 <= i < |table| ==> table[i].pid == i && table[i].priority < UINT32
    }

    ghost predicate Members()
      reads this`table, this`queue
    {
      && (forall i :: 0 <= i < |queue| ==> queue[i] in table)
      && (forall i, j :: 0 <= i < j < |queue| ==> queue[i] != queue[j])
    }

    /** Head, tail, count and the two link fields of every member describe `queue`; `next` and
        `prev` are therefore mutually inverse. */
    ghost predicate Linked()
      reads this`head, this`tail, this`count, this`queue, queue`next, queue`prev
    {
      && count == |queue|
      && head == (if queue == [] then null else queue[0])
      && tail == (if queue == [] then null else queue[|queue| - 1])
      && (forall i {:trigger queue[i].next} :: 0 <= i < |queue| ==>
            queue[i].next == if i + 1 < |queue| then queue[i + 1] else null)
      && (forall i {:trigger queue[i].prev} :: 0 <= i < |queue| ==>
            queue[i].prev == if i > 0 then queue[i - 1] else null)
    }

    ghost predicate Valid()
      reads this, table, queue
    {
      TableOk() && Members() && current in table && Linked()
    }

    /** The abstract scheduler state. */
    ghost function Abs(): (r: RunState)
      requires TableOk() && Members() && current in table
      reads this, table`state, table`vruntime, table`runtimeTicks, table`sleepUntil
      ensures WellFormed(r)
    {
      RunState(Views(table), Pids(queue), current.pid, tick)
    }

    /** Processes in the table are told apart by their id. */
    lemma SamePid(p: Process, q: Process)
      requires TableOk() && p in table && q in table && p.pid == q.pid
      ensures p == q
    {
    }

    static lemma BootViews(p: Process)
      ensures Views([p]) == [p.View()]
    {
      assert [p][..0] == [];
    }

    /** `sched_init` once the idle process exists. */
    constructor (idle: Process)
      requires idle.pid == IDLE && idle.View() == Pcb(Ready, 255, 0, 0, 0)
      ensures Valid() && Abs() == BootState() && queue == []
    {
      table, head, tail, count, current, tick := [idle], null, null, 0, idle, 0;
      queue := [];
      new;
      hide WellFormed, Distinct, Views, Process.View;
      BootViews(idle);
      assert TableOk() && Linked();
      assert Pids(queue) == [];
    }

    /** The pointer stores of `sched_add`. */
    method LinkLast(p: Process)
      requires Valid() && p in table && p !in queue
      modifies this`head, this`tail, this`count, this`queue, p`next, p`prev, queue`next
      ensures Linked() && queue == old(queue) + [p]
    {
      hide TableOk;
      p.next := null;
      p.prev := tail;
      if tail != null {
        tail.next := p;
      } else {
        head := p;
      }
      tail := p;
      count := count + 1;
      queue := queue + [p];
    }

    /** `sched_add` */
    method Add(p: Process)
      requires Valid() && p in table && p !in queue
      modifies this`head, this`tail, this`count, this`queue, p`next, p`prev, queue`next
      ensures Valid() && Abs() == Sched.Add(old(Abs()), p.pid)
    {
      hide Linked, Views, Distinct;
      if p.state != Ready {
        return;
      }
      LinkLast(p);
      assert Pids(queue) == old(Pids(queue)) + [p.pid];
    }

    /** The pointer stores of `sched_remove`. */
    method Unlink(p: Process, ghost i: nat)
      requires Valid() && i < |queue| && p == queue[i]
      modifies this`head, this`tail, this`count, this`queue, queue`next, queue`prev
      ensures Linked() && queue == old(queue)[..i] + old(queue)[i + 1..]
      ensures p.next == null && p.prev == null
    {
      hide TableOk;
      if p.prev != null {
        p.prev.next := p.next;
      } else {
        head := p.next;
      }
      if p.next != null {
        p.next.prev := p.prev;
      } else {
        tail := p.prev;
      }
      p.next := null;
      p.prev := null;
      if count > 0 {
        count := count - 1;
      }
      queue := queue[..i] + queue[i + 1..];
    }

    /** `sched_remove` of the member at position `i`. */
    method Remove(p: Process, ghost i: nat)
      requires Valid() && i < |queue| && p == queue[i]
      modifies this`head, this`tail, this`count, this`queue, queue`next, queue`prev
      ensures Valid() && Abs() == Sched.Remove(old(Abs()), i)
      ensures p.next == null && p.prev == null
    {
      hide Linked, Views, Distinct;
      Unlink(p, i);
      assert Pids(queue) == old(Pids(queue))[..i] + old(Pids(queue))[i + 1..];
    }

    /** `pick_next` */
    method PickNext() returns (best: Process)
      requires Valid()
      ensures best in table && WellFormed(Abs())
      ensures best.pid == Sched.PickNext(Abs().procs, Abs().queue)
    {
      if head == null {
        return table[0];
      }
      var b: Process? := null;
      var cur := head;
      ghost var i := 0;
      while cur != null
        invariant i <= |queue| && cur == (if i < |queue| then queue[i] else null)
        invariant b != null ==> b in table
        invariant Sched.PickNext(Abs().procs, Abs().queue) ==
                  PickFrom(Abs().procs, Abs().queue, i, if b != null then b.pid else IDLE, b != null)
        decreases |queue| - i
      {
        if cur.state == Ready {
          if b == null || cur.vruntime < b.vruntime {
            b := cur;
          }
        }
        cur := cur.next;
        i := i + 1;
      }
      best := if b != null then b else table[0];
    }

    // ---- single fields ----

    method SetState(p: Process, st: State)
      requires Valid() && p in table
      modifies p`state
      ensures Valid() && Views(table) == Sched.SetState(old(Views(table)), p.pid, st)
    {
      p.state := st;
      forall i | 0 <= i < |table| && i != p.pid
        ensures table[i] != p
      {
      }
    }

    /** One tick of CPU time for the current process, and its weight of virtual runtime. */
    method ChargeCurrent()
      requires Valid()
      modifies current`vruntime, current`runtimeTicks
      ensures Valid() && Views(table) == old(Views(table))[current.pid := Charge(old(Views(table))[current.pid])]
    {
      hide Linked, Views;
      current.runtimeTicks := current.runtimeTicks + 1;
      current.vruntime := (current.vruntime + (UINT32 + 256 - current.priority) % UINT32) % UINT32;
      forall i | 0 <= i < |table| && i != current.pid
        ensures table[i] != current
      {
      }
    }

    /** The waking loop of `sched_tick`. */
    method WakeSleepers()
      requires Valid()
      modifies table`state
      ensures Valid() && Abs() == Awakened(old(Abs()))
    {
      hide Views, Distinct, Linked, Members, Woken;
      WakeLoop();
      forall k | 0 <= k < |table|
        ensures k in Pids(queue) <==> table[k] in queue
      {
        PidInQueue(k);
      }
    }

    method WakeLoop()
      requires Valid()
      modifies table`state
      ensures forall q: Process :: q in table ==>
                q.View() == if q in queue then Woken(old(q.View()), tick) else old(q.View())
    {
      hide Views, Distinct, TableOk;
      var p := head;
      ghost var i := 0;
      while p != null
        invariant i <= |queue| && p == (if i < |queue| then queue[i] else null)
        invariant forall q: Process :: q in table ==>
                    q.View() == if q in queue[..i] then Woken(old(q.View()), tick) else old(q.View())
        decreases |queue| - i
      {
        assert queue[..i + 1] == queue[..i] + [p];
        assert p !in queue[..i];
        if p.state == Sleeping && tick >= p.sleepUntil {
          p.state := Ready;
        }
        p := p.next;
        i := i + 1;
      }
      assert queue[..i] == queue;
    }

    lemma PidInQueue(k: nat)
      requires Valid() && k < |table|
      ensures k in Pids(queue) <==> table[k] in queue
    {
      if k in Pids(queue) {
        var j :| 0 <= j < |queue| && Pids(queue)[j] == k;
        SamePid(queue[j], table[k]);
      }
      if table[k] in queue {
        var j :| 0 <= j < |queue| && queue[j] == table[k];
        assert Pids(queue)[j] == k;
      }
    }

    /** The hand-over at the end of `sched_tick` and `sched_yield`; `context_switch` comes
        after it. */
    method HandOver()
      requires Valid()
      modifies this`current, table`state
      ensures Valid() && Abs() == Dispatch(old(Abs()))
    {
      hide Views, Distinct, PickFrom, Linked, WellFormed, Pids, Sched.PickNext;
      var next := PickNext();
      if next != current {
        if next.pid == current.pid {
          SamePid(next, current);
          assert false;
        }
        current := next;
        SetState(next, Running);
      }
    }

    // ---- the interface ----

    /** The counters of `sched_tick`. */
    method CountTick()
      requires Valid()
      modifies this`tick, current`vruntime, current`runtimeTicks
      ensures Valid() && Abs() == Counted(old(Abs()))
    {
      hide Views, Distinct, Linked, Members, Charge, WellFormed, Pids;
      tick := tick + 1;
      ChargeCurrent();
    }

    /** `sched_tick` up to the quantum test. */
    method ChargeAndWake()
      requires Valid()
      modifies this`tick, table`state, table`vruntime, table`runtimeTicks
      ensures Valid() && Abs() == Ticked(old(Abs()))
    {
      assert current in table;
      hide Abs, Views, Distinct, Linked, Members, TableOk, Counted, Awakened, WellFormed, Pids;
      CountTick();
      WakeSleepers();
    }

    /** `sched_tick` */
    method SchedTick()
      requires Valid()
      modifies this`tick, this`current, table`state, table`vruntime, table`runtimeTicks
      ensures Valid() && Abs() == Tick(old(Abs()))
    {
      hide Views, Distinct, Linked, Ticked, Dispatch;
      ChargeAndWake();
      var cur := current;
      assert cur.View() == Abs().procs[Abs().current];
      if cur.runtimeTicks % QUANTUM == 0 {
        if cur.state == Running {
          SetState(cur, Ready);
        }
        HandOver();
      }
    }

    /** `sched_yield` */
    method SchedYield()
      requires Valid()
      modifies this`current, table`state
      ensures Valid() && Abs() == Yield(old(Abs()))
    {
      hide Views, Distinct, PickFrom, Linked;
      SetState(current, Ready);
      HandOver();
    }

    /** `sched_sleep` */
    method SchedSleep(ms: nat)
      requires Valid()
      modifies this`current, table`state, current`sleepUntil
      ensures Valid() && Abs() == Sleep(old(Abs()), ms)
    {
      hide Distinct, PickFrom, Linked;
      current.state := Sleeping;
      current.sleepUntil := tick + ms;
      forall i | 0 <= i < |table| && i != current.pid
        ensures table[i] != current
      {
      }
      assert Views(table) ==
             old(Views(table))[current.pid := old(Views(table))[current.pid].(state := Sleeping, sleepUntil := tick + ms)];
      SchedYield();
    }

    /** `sched_wake` */
    method SchedWake(p: Process)
      requires Valid() && p in table
      modifies p`state
      ensures Valid() && Abs() == Wake(old(Abs()), p.pid)
    {
      hide Views, Distinct, PickFrom, Linked;
      if p.state == Sleeping || p.state == Blocked {
        SetState(p, Ready);
      }
    }

    /** `proc_exit` */
    method ProcExit(p: Process)
      requires Valid() && p in table
      modifies this`current, table`state
      ensures Valid() && Abs() == Exit(old(Abs()), p.pid)
    {
      hide Views, Distinct, PickFrom, Linked;
      SetState(p, Zombie);
      SchedYield();
    }

    /** `SIGSTOP` and `SIGCONT` of `signal_send`. */
    method SignalStop(p: Process)
      requires Valid() && p in table
      modifies p`state
      ensures Valid() && Abs() == Stop(old(Abs()), p.pid)
    {
      hide Views, Distinct, Linked;
      SetState(p, Blocked);
    }

    method SignalContinue(p: Process)
      requires Valid() && p in table
      modifies p`state
      ensures Valid() && Abs() == Continue(old(Abs()), p.pid)
    {
      hide Views, Distinct, Linked;
      if p.state == Blocked {
        SetState(p, Ready);
      }
    }

    /** `proc_create`: the new process takes the first free slot of the table. */
    method ProcCreate(priority: nat) returns (p: Process)
      requires Valid() && priority < UINT32
      modifies this`table
      ensures Valid() && Abs() == Spawn(old(Abs()), priority)
      ensures fresh(p) && table == old(table) + [p]
    {
      hide Linked, Distinct, WellFormed, Views, Pids;
      p := new Process(|table|, priority);
      ViewsExtend(table, p);
      table := table + [p];
    }
  }
}
