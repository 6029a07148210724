/** The message queues of kernel/ipc/ipc.c: 64 slots of rings of 64 messages. */
module MessageQueues {

  const MSG_QUEUE_LEN: nat := 64
  const MAX_QUEUES: nat := 64
  const EAGAIN: int := -11

  datatype Message = Message(sender: nat, size: nat, data: seq<bv8>)

  const NO_MESSAGE: Message := Message(0, 0, [])

  /** `n` messages of the ring from position `head` on. */
  function Waiting(ring: seq<Message>, head: nat, n: nat): (s: seq<Message>)
    requires |ring| == MSG_QUEUE_LEN
    ensures |s| == n && forall i :: 0 <= i < n ==> s[i] == ring[(head + i) % MSG_QUEUE_LEN]
  {
    seq(n, i requires 0 <= i < n => ring[(head + i) % MSG_QUEUE_LEN])
  }

  lemma WaitingPop(ring: seq<Message>, head: nat, n: nat)
    requires |ring| == MSG_QUEUE_LEN && head < MSG_QUEUE_LEN && 0 < n <= MSG_QUEUE_LEN
    ensures Waiting(ring, head, n) == [ring[head]] + Waiting(ring, (head + 1) % MSG_QUEUE_LEN, n - 1)
    ensures ((head + 1) % MSG_QUEUE_LEN + (n - 1)) % MSG_QUEUE_LEN == (head + n) % MSG_QUEUE_LEN
  {
  }

  lemma WaitingPush(ring: seq<Message>, head: nat, n: nat, m: Message)
    requires |ring| == MSG_QUEUE_LEN && head < MSG_QUEUE_LEN && n < MSG_QUEUE_LEN
    ensures var tail := (head + n) % MSG_QUEUE_LEN;
            && Waiting(ring[tail := m], head, n + 1) == Waiting(ring, head, n) + [m]
            && (tail + 1) % MSG_QUEUE_LEN == (head + (n + 1)) % MSG_QUEUE_LEN
  {
  }

  class MsgQueue {
    const id: nat
    const messages: array<Message>
    var head: nat
    var tail: nat
    var count: nat

    constructor (id: nat)
      ensures Valid() && fresh(messages) && this.id == id && Contents() == []
    {
      this.id := id;
      messages := new Message[MSG_QUEUE_LEN](_ => NO_MESSAGE);
      head, tail, count := 0, 0, 0;
    }

    /** The messages in the queue, oldest first. */
    ghost function Contents(): seq<Message>
      reads this, messages
      requires messages.Length == MSG_QUEUE_LEN
    {
      Waiting(messages[..], head, count)
    }

    ghost predicate Valid()
      reads this, messages
    {
      && messages.Length == MSG_QUEUE_LEN
      && head < MSG_QUEUE_LEN && tail < MSG_QUEUE_LEN && count <= MSG_QUEUE_LEN
      && (head + count) % MSG_QUEUE_LEN == tail
    }

    method Push(m: Message)
      requires Valid() && count < MSG_QUEUE_LEN
      modifies this, messages
      ensures Valid() && Contents() == old(Contents()) + [m]
    {
      hide Waiting;
      WaitingPush(messages[..], head, count, m);
      messages[tail] := m;
      tail := (tail + 1) % MSG_QUEUE_LEN;
      count := count + 1;
    }

    method Pop() returns (m: Message)
      requires Valid() && count > 0
      modifies this
      ensures Valid() && old(Contents()) == [m] + Contents()
    {
      hide Waiting;
      WaitingPop(messages[..], head, count);
      m := messages[head];
      head := (head + 1) % MSG_QUEUE_LEN;
      count := count - 1;
    }
  }

  datatype Slot = Never | Open(queue: seq<Message>) | Destroyed

  class Registry {
    const slots: array<MsgQueue?>
    var nextQid: nat

    constructor ()
      ensures Valid() && fresh(slots) && forall q :: 0 <= q < MAX_QUEUES ==> View(q) == Never
    {
      slots := new MsgQueue?[MAX_QUEUES](_ => null);
      nextQid := 0;
    }

    ghost predicate Valid()
      reads this, slots, slots[..], set q | q in slots[..] && q != null :: q.messages
    {
      && slots.Length == MAX_QUEUES && nextQid <= MAX_QUEUES
      && (forall q :: nextQid <= q < MAX_QUEUES ==> slots[q] == null)
      && (forall q :: 0 <= q < MAX_QUEUES && slots[q] != null ==> slots[q].Valid() && slots[q].id == q)
      && (forall q, r :: 0 <= q < r < MAX_QUEUES && slots[q] != null && slots[r] != null ==>
            slots[q].messages != slots[r].messages)
    }

    /** What an id stands for: never created, a live queue, or a destroyed one. */
    ghost function View(q: nat): Slot
      reads this, slots, slots[..], set m | m in slots[..] && m != null :: m.messages
      requires Valid() && q < MAX_QUEUES
    {
      if slots[q] != null then Open(slots[q].Contents()) else if q < nextQid then Destroyed else Never
    }

    ghost function State(): (b: Book)
      requires Valid()
      reads this, slots, slots[..], set m | m in slots[..] && m != null :: m.messages
      ensures GoodBook(b) && forall q :: 0 <= q < MAX_QUEUES ==> b.views[q] == View(q)
      ensures b.next == nextQid
    {
      Book(nextQid, seq(MAX_QUEUES, q requires 0 <= q < MAX_QUEUES && Valid()
                                      reads this, slots, slots[..], set m | m in slots[..] && m != null :: m.messages =>
                                      View(q)))
    }

    /** `msgq_create`; `granted` says whether `kcalloc` found room. */
    method Create(granted: bool) returns (r: int)
      requires Valid()
      modifies this, slots
      ensures Valid()
      ensures r == if old(nextQid) < MAX_QUEUES && granted then old(nextQid) else -1
      ensures forall q :: 0 <= q < MAX_QUEUES ==> View(q) == if q == r then Open([]) else old(View(q))
      ensures nextQid == old(nextQid) + (if r >= 0 then 1 else 0)
      ensures r >= 0 ==> old(View(r)) == Never && fresh(slots[r]) && fresh(slots[r].messages)
      ensures forall q :: 0 <= q < MAX_QUEUES && q != r ==> slots[q] == old(slots[q])
    {
      if nextQid >= MAX_QUEUES {
        return -1;
      }
      if !granted {
        slots[nextQid] := null;
        return -1;
      }
      slots[nextQid] := new MsgQueue(nextQid);
      r := nextQid;
      nextQid := nextQid + 1;
    }

    /** `msgq_destroy` */
    method Destroy(qid: int)
      requires Valid()
      modifies slots
      ensures Valid()
      ensures forall q :: 0 <= q < MAX_QUEUES ==>
                View(q) == if q == qid && old(View(q)).Open? then Destroyed else old(View(q))
      ensures forall q :: 0 <= q < MAX_QUEUES ==> slots[q] == old(slots[q]) || slots[q] == null
    {
      if qid < 0 || qid >= MAX_QUEUES || slots[qid] == null {
        return;
      }
      slots[qid] := null;
    }

    /** `msgq_send` */
    method Send(qid: int, m: Message) returns (r: int)
      requires Valid()
      modifies slots[..], set q | q in slots[..] && q != null :: q.messages
      ensures Valid()
      ensures r == if 0 <= qid < MAX_QUEUES && old(View(qid)).Open?
                   then (if |old(View(qid)).queue| < MSG_QUEUE_LEN then 0 else EAGAIN) else -1
      ensures forall q :: 0 <= q < MAX_QUEUES ==>
                View(q) == if q == qid && r == 0 then Open(old(View(q)).queue + [m]) else old(View(q))
    {
      if qid < 0 || qid >= MAX_QUEUES || slots[qid] == null {
        return -1;
      }
      var q := slots[qid];
      if q.count >= MSG_QUEUE_LEN {
        return EAGAIN;
      }
      q.Push(m);
      r := 0;
    }

    /** `msgq_recv` */
    method Recv(qid: int) returns (r: int, m: Message)
      requires Valid()
      modifies slots[..]
      ensures Valid()
      ensures r == if 0 <= qid < MAX_QUEUES && old(View(qid)).Open?
                   then (if old(View(qid)).queue != [] then 0 else EAGAIN) else -1
      ensures r == 0 ==> View(qid).Open? && old(View(qid)).queue == [m] + View(qid).queue
      ensures forall q :: 0 <= q < MAX_QUEUES && (q != qid || r != 0) ==> View(q) == old(View(q))
    {
      m := NO_MESSAGE;
      if qid < 0 || qid >= MAX_QUEUES || slots[qid] == null {
        return -1, m;
      }
      var q := slots[qid];
      if q.count == 0 {
        return EAGAIN, m;
      }
      m := q.Pop();
      r := 0;
    }
  }

  // ---- whole runs ----

  datatype Call = CreateCall(granted: bool) | DestroyCall(qid: int) | SendCall(qid: int, m: Message) | RecvCall(qid: int)

  /** What a call returns; a receive that succeeds returns a message besides 0. */
  datatype Reply = Code(code: int) | Received(m: Message) | NoReply

  /** All queues: the next id, and what each id stands for. */
  datatype Book = Book(next: nat, views: seq<Slot>)

  predicate GoodBook(b: Book) {
    && b.next <= |b.views| == MAX_QUEUES
    && (forall q :: 0 <= q < MAX_QUEUES ==> (b.views[q] == Never <==> b.next <= q))
  }

  predicate IsOpen(b: Book, q: int)
    requires GoodBook(b)
  {
    0 <= q < MAX_QUEUES && b.views[q].Open?
  }

  function Step(b: Book, c: Call): (Book, Reply)
    requires GoodBook(b)
  {
    match c
    case CreateCall(granted) =>
      if b.next < MAX_QUEUES && granted then (Book(b.next + 1, b.views[b.next := Open([])]), Code(b.next))
      else (b, Code(-1))
    case DestroyCall(q) =>
      if IsOpen(b, q) then (b.(views := b.views[q := Destroyed]), NoReply) else (b, NoReply)
    case SendCall(q, m) =>
      if !IsOpen(b, q) then (b, Code(-1))
      else if |b.views[q].queue| >= MSG_QUEUE_LEN then (b, Code(EAGAIN))
      else (b.(views := b.views[q := Open(b.views[q].queue + [m])]), Code(0))
    case RecvCall(q) =>
      if !IsOpen(b, q) then (b, Code(-1))
      else if b.views[q].queue == [] then (b, Code(EAGAIN))
      else (b.(views := b.views[q := Open(b.views[q].queue[1..])]), Received(b.views[q].queue[0]))
  }

  lemma StepKeepsBook(b: Book, c: Call)
    requires GoodBook(b)
    ensures GoodBook(Step(b, c).0)
  {
  }

  function Run(b: Book, calls: seq<Call>): (r: (Book, seq<Reply>))
    requires GoodBook(b)
    ensures GoodBook(r.0) && |r.1| == |calls|
    decreases |calls|
  {
    if calls == [] then (b, [])
    else
      var n := |calls| - 1;
      var (before, replies) := Run(b, calls[..n]);
      StepKeepsBook(before, calls[n]);
      var (after, reply) := Step(before, calls[n]);
      (after, replies + [reply])
  }

  /** The message that a call put into queue `q`, if it did. */
  function Sent(c: Call, a: Reply, q: int): seq<Message> {
    if c.SendCall? && c.qid == q && a == Code(0) then [c.m] else []
  }

  /** The message that a call took from queue `q`, if it did. */
  function Taken(c: Call, a: Reply, q: int): seq<Message> {
    if c.RecvCall? && c.qid == q && a.Received? then [a.m] else []
  }

  function AllSent(calls: seq<Call>, replies: seq<Reply>, q: int): seq<Message>
    requires |calls| == |replies|
    decreases |calls|
  {
    if calls == [] then []
    else
      var n := |calls| - 1;
      AllSent(calls[..n], replies[..n], q) + Sent(calls[n], replies[n], q)
  }

  function AllTaken(calls: seq<Call>, replies: seq<Reply>, q: int): seq<Message>
    requires |calls| == |replies|
    decreases |calls|
  {
    if calls == [] then []
    else
      var n := |calls| - 1;
      AllTaken(calls[..n], replies[..n], q) + Taken(calls[n], replies[n], q)
  }

  function Queue(v: Slot): seq<Message> {
    if v.Open? then v.queue else []
  }

  /** What was received and what was sent agree with the state `now` of a queue that started as
      `was`: everything sent was received or waits, in order. */
  predicate InOrder(was: Slot, now: Slot, sent: seq<Message>, taken: seq<Message>) {
    && taken <= Queue(was) + sent
    && (now.Open? ==> Queue(was) + sent == taken + now.queue)
    && (now == Never ==> was == Never && sent == [] && taken == [])
  }

  /** First in, first out for every queue over any run, whatever happens to the others. */
  lemma {:induction false} EachQueueIsFifo(b: Book, calls: seq<Call>, q: nat)
    requires GoodBook(b) && q < MAX_QUEUES
    ensures var (r, replies) := Run(b, calls);
            InOrder(b.views[q], r.views[q], AllSent(calls, replies, q), AllTaken(calls, replies, q))
    decreases |calls|
  {
    hide Step, Sent, Taken;
    if calls == [] {
      assert Queue(b.views[q]) + [] == Queue(b.views[q]);
    } else {
      var n := |calls| - 1;
      EachQueueIsFifo(b, calls[..n], q);
      var (before, front) := Run(b, calls[..n]);
      assert Run(b, calls).1[..n] == front;
      StepInOrder(b.views[q], before, calls[n], q, AllSent(calls[..n], front, q), AllTaken(calls[..n], front, q));
    }
  }

  lemma SendInOrder(was: Slot, queue: seq<Message>, sent: seq<Message>, taken: seq<Message>, m: Message)
    requires InOrder(was, Open(queue), sent, taken)
    ensures InOrder(was, Open(queue + [m]), sent + [m], taken)
  {
    assert Queue(was) + (sent + [m]) == (Queue(was) + sent) + [m];
    assert (taken + queue) + [m] == taken + (queue + [m]);
  }

  lemma RecvInOrder(was: Slot, queue: seq<Message>, sent: seq<Message>, taken: seq<Message>)
    requires InOrder(was, Open(queue), sent, taken) && queue != []
    ensures InOrder(was, Open(queue[1..]), sent, taken + [queue[0]])
  {
    assert queue == [queue[0]] + queue[1..];
    assert Queue(was) + sent == (taken + [queue[0]]) + queue[1..];
  }

  lemma StepInOrder(was: Slot, b: Book, c: Call, q: nat, sent: seq<Message>, taken: seq<Message>)
    requires GoodBook(b) && q < MAX_QUEUES && InOrder(was, b.views[q], sent, taken)
    ensures var (r, a) := Step(b, c);
            |r.views| == MAX_QUEUES && InOrder(was, r.views[q], sent + Sent(c, a, q), taken + Taken(c, a, q))
  {
    StepKeepsBook(b, c);
    assert sent + [] == sent && taken + [] == taken;
    var now := b.views[q];
    if now.Open? && c.SendCall? && c.qid == q {
      SendInOrder(was, now.queue, sent, taken, c.m);
      hide InOrder;
    } else if now.Open? && c.RecvCall? && c.qid == q && now.queue != [] {
      RecvInOrder(was, now.queue, sent, taken);
      hide InOrder;
    }
  }

  /** An id that was destroyed is refused for ever: later sends and receives return -1, and no
      later create returns the id again. */
  lemma {:induction false} DestroyedForEver(b: Book, calls: seq<Call>, q: nat, k: nat)
    requires GoodBook(b) && q < MAX_QUEUES && b.views[q] == Destroyed && k < |calls|
    ensures Run(b, calls).0.views[q] == Destroyed
    ensures var c, a := calls[k], Run(b, calls).1[k];
            && ((c.SendCall? || c.RecvCall?) && c.qid == q ==> a == Code(-1))
            && (c.CreateCall? ==> a != Code(q))
    decreases |calls|
  {
    var n := |calls| - 1;
    var (before, front) := Run(b, calls[..n]);
    if n > 0 {
      DestroyedForEver(b, calls[..n], q, if k < n then k else 0);
    } else {
      assert calls[..n] == [];
    }
    assert Run(b, calls).1[..n] == front;
    StepRefuses(before, calls[n], q);
  }

  lemma StepRefuses(b: Book, c: Call, q: nat)
    requires GoodBook(b) && q < MAX_QUEUES && b.views[q] == Destroyed
    ensures var (r, a) := Step(b, c);
            && |r.views| == MAX_QUEUES && r.views[q] == Destroyed
            && ((c.SendCall? || c.RecvCall?) && c.qid == q ==> a == Code(-1))
            && (c.CreateCall? ==> a != Code(q))
  {
  }

  /** One call on the tables is one call on the book. */
  method Perform(reg: Registry, c: Call) returns (a: Reply)
    requires reg.Valid()
    modifies reg, reg.slots, reg.slots[..], set q | q in reg.slots[..] && q != null :: q.messages
    ensures reg.Valid() && (reg.State(), a) == Step(old(reg.State()), c)
    ensures forall q: MsgQueue? :: q in reg.slots[..] && q != null ==>
              (q in old(reg.slots[..]) || fresh(q)) && (fresh(q) ==> fresh(q.messages))
  {
    hide Registry.State, Registry.View, Waiting;
    match c
    case CreateCall(granted) =>
      var r := reg.Create(granted);
      a := Code(r);
      assert reg.State().views == Step(old(reg.State()), c).0.views;
    case DestroyCall(qid) =>
      reg.Destroy(qid);
      a := NoReply;
      assert reg.State().views == Step(old(reg.State()), c).0.views;
    case SendCall(qid, m) =>
      var r := reg.Send(qid, m);
      a := Code(r);
      assert reg.State().views == Step(old(reg.State()), c).0.views;
    case RecvCall(qid) =>
      var r, m := reg.Recv(qid);
      a := if r == 0 then Received(m) else Code(r);
      if r == 0 {
        ghost var was, now := old(reg.State()).views[qid].queue, reg.State().views[qid].queue;
        assert was == [m] + now && was[0] == m && was[1..] == now;
      }
      assert reg.State().views == Step(old(reg.State()), c).0.views;
  }

  /** Any run of calls returns what the book returns. */
  method Drive(reg: Registry, calls: seq<Call>) returns (replies: seq<Reply>)
    requires reg.Valid()
    modifies reg, reg.slots, reg.slots[..], set q | q in reg.slots[..] && q != null :: q.messages
    ensures reg.Valid() && (reg.State(), replies) == Run(old(reg.State()), calls)
  {
    hide Step;
    replies := [];
    for k := 0 to |calls|
      invariant reg.Valid() && (reg.State(), replies) == Run(old(reg.State()), calls[..k])
      invariant forall q: MsgQueue? :: q in reg.slots[..] && q != null ==>
                  (q in old(reg.slots[..]) || fresh(q)) && (fresh(q) ==> fresh(q.messages))
    {
      assert calls[..k + 1][..k] == calls[..k];
      var a := Perform(reg, calls[k]);
      replies := replies + [a];
    }
    assert calls[..|calls|] == calls;
  }
}
