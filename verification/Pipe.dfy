/** The pipes of kernel/ipc/ipc.c: a ring buffer whose positions are 64-bit counters that wrap. */
module Pipe {
  import opened Words

  const PIPE_BUF_SIZE: nat := 4096
  const EAGAIN: int := -11

  function Min(a: nat, b: nat): nat {
    if a < b then a else b
  }

  /** Because the buffer size divides 2^64, a wrapped counter keeps its slot. */
  lemma WrapKeepsSlot(x: nat, i: nat)
    ensures (x % WORD_LIMIT + i) % PIPE_BUF_SIZE == (x + i) % PIPE_BUF_SIZE
  {
    var q := x / WORD_LIMIT;
    var r := x % WORD_LIMIT;
    assert x + i == q * 0x10_0000_0000_0000 * PIPE_BUF_SIZE + (r + i);
    MultipleDropsOut(q * 0x10_0000_0000_0000, r + i);
  }

  lemma {:induction false} MultipleDropsOut(q: nat, y: nat)
    ensures (q * PIPE_BUF_SIZE + y) % PIPE_BUF_SIZE == y % PIPE_BUF_SIZE
  {
    QuotientIsUnique(q * PIPE_BUF_SIZE + y, PIPE_BUF_SIZE, q + y / PIPE_BUF_SIZE, y % PIPE_BUF_SIZE);
  }

  /** Different distances below the buffer size lead to different slots. */
  lemma SlotsDiffer(x: nat, i: nat, j: nat)
    requires i < PIPE_BUF_SIZE && j < PIPE_BUF_SIZE && i != j
    ensures (x + i) % PIPE_BUF_SIZE != (x + j) % PIPE_BUF_SIZE
  {
    var r := x % PIPE_BUF_SIZE;
    SlotOf(x, i);
    SlotOf(x, j);
  }

  lemma SlotOf(x: nat, i: nat)
    requires i < PIPE_BUF_SIZE
    ensures (x + i) % PIPE_BUF_SIZE ==
            if x % PIPE_BUF_SIZE + i < PIPE_BUF_SIZE then x % PIPE_BUF_SIZE + i
            else x % PIPE_BUF_SIZE + i - PIPE_BUF_SIZE
  {
  }

  /** The slot `i` places after position `pos`. */
  function Slot(pos: nat, i: nat): (k: nat)
    ensures k < PIPE_BUF_SIZE
  {
    (pos + i) % PIPE_BUF_SIZE
  }

  /** `n` ring slots from position `pos` on. */
  function Waiting(ring: seq<bv8>, pos: nat, n: nat): (s: seq<bv8>)
    requires |ring| == PIPE_BUF_SIZE
    ensures |s| == n && forall i :: 0 <= i < n ==> s[i] == ring[Slot(pos, i)]
  {
    seq(n, i requires 0 <= i < n => ring[Slot(pos, i)])
  }

  /** Advancing the wrapping read position drops the oldest byte. */
  lemma WaitingPop(ring: seq<bv8>, pos: nat, n: nat)
    requires |ring| == PIPE_BUF_SIZE && n > 0
    ensures Waiting(ring, pos, n) == [ring[pos % PIPE_BUF_SIZE]] + Waiting(ring, (pos + 1) % WORD_LIMIT, n - 1)
  {
    hide Slot;
    SlotHere(pos);
    var next := (pos + 1) % WORD_LIMIT;
    forall i: nat {:trigger Slot(next, i)} | i < n - 1
      ensures Waiting(ring, pos, n)[i + 1] == ring[Slot(next, i)]
    {
      SlotAfterWrap(pos, i);
    }
    assert Waiting(ring, pos, n)[0] == ring[Slot(pos, 0)];
  }

  lemma SlotHere(pos: nat)
    ensures Slot(pos, 0) == pos % PIPE_BUF_SIZE
  {
  }

  lemma SlotAfterWrap(pos: nat, i: nat)
    ensures Slot((pos + 1) % WORD_LIMIT, i) == Slot(pos, i + 1)
  {
    WrapKeepsSlot(pos + 1, i);
  }

  /** Storing behind the last waiting byte appends it and overwrites none. */
  lemma WaitingPush(ring: seq<bv8>, pos: nat, n: nat, b: bv8)
    requires |ring| == PIPE_BUF_SIZE && n < PIPE_BUF_SIZE
    ensures Waiting(ring[Slot(pos, n) := b], pos, n + 1) == Waiting(ring, pos, n) + [b]
  {
    hide Slot;
    forall i: nat | i < n
      ensures Slot(pos, i) != Slot(pos, n)
    {
      SlotsAreDistinct(pos, i, n);
    }
  }

  lemma SlotsAreDistinct(pos: nat, i: nat, j: nat)
    requires i < PIPE_BUF_SIZE && j < PIPE_BUF_SIZE && i != j
    ensures Slot(pos, i) != Slot(pos, j)
  {
    SlotsDiffer(pos, i, j);
  }

  class Pipe {
    const buf: array<bv8>
    var readPos: nat
    var writePos: nat
    var bytesAvailable: nat
    var writeClosed: bool
    var readClosed: bool
    /** All bytes ever accepted and delivered. */
    ghost var accepted: seq<bv8>
    ghost var delivered: seq<bv8>

    /** The bytes waiting in the pipe, oldest first. */
    ghost function Contents(): (s: seq<bv8>)
      reads this`readPos, this`bytesAvailable, buf
      requires buf.Length == PIPE_BUF_SIZE
      ensures |s| == bytesAvailable
    {
      Waiting(buf[..], readPos, bytesAvailable)
    }

    ghost function State(): PipeState
      reads this, buf
      requires buf.Length == PIPE_BUF_SIZE
    {
      PipeState(Contents(), writeClosed, readClosed)
    }

    /** The ring holds what was accepted and not yet delivered, in order. */
    ghost predicate Valid()
      reads this, buf
    {
      && buf.Length == PIPE_BUF_SIZE && bytesAvailable <= PIPE_BUF_SIZE
      && readPos < WORD_LIMIT && writePos < WORD_LIMIT
      && writePos % PIPE_BUF_SIZE == Slot(readPos, bytesAvailable)
      && accepted == delivered + Contents()
    }

    /** `pipe_create` after `kcalloc` */
    constructor ()
      ensures Valid() && fresh(buf) && State() == NEW_PIPE && accepted == [] && delivered == []
    {
      buf := new bv8[PIPE_BUF_SIZE](_ => 0);
      readPos, writePos, bytesAvailable := 0, 0, 0;
      writeClosed, readClosed := false, false;
      accepted, delivered := [], [];
    }

    /** One round of the reading loop. */
    method PopByte() returns (b: bv8)
      requires Valid() && bytesAvailable > 0
      modifies this`readPos, this`bytesAvailable, this`delivered
      ensures Valid() && b == old(Contents())[0] && Contents() == old(Contents())[1..]
      ensures delivered == old(delivered) + [b]
    {
      hide Slot, Waiting;
      WaitingPop(buf[..], readPos, bytesAvailable);
      SlotAfterWrap(readPos, bytesAvailable - 1);
      b := buf[readPos % PIPE_BUF_SIZE];
      readPos := (readPos + 1) % WORD_LIMIT;
      bytesAvailable := bytesAvailable - 1;
      delivered := delivered + [b];
    }

    /** One round of the writing loop. */
    method PushByte(b: bv8)
      requires Valid() && bytesAvailable < PIPE_BUF_SIZE
      modifies buf, this`writePos, this`bytesAvailable, this`accepted
      ensures Valid() && Contents() == old(Contents()) + [b]
      ensures accepted == old(accepted) + [b]
    {
      hide Slot, Waiting;
      WaitingPush(buf[..], readPos, bytesAvailable, b);
      NextSlot(writePos, readPos, bytesAvailable);
      buf[writePos % PIPE_BUF_SIZE] := b;
      writePos := (writePos + 1) % WORD_LIMIT;
      bytesAvailable := bytesAvailable + 1;
      accepted := accepted + [b];
    }

    /** `pipe_read`: delivers the oldest bytes, as many as asked for and available. */
    method Read(dst: array<bv8>, count: nat) returns (r: int)
      requires Valid() && count <= dst.Length && dst != buf
      modifies this`readPos, this`bytesAvailable, this`delivered, dst
      ensures Valid()
      ensures old(readClosed) ==> r == -1
      ensures !old(readClosed) && old(Contents()) == [] ==> r == if writeClosed then 0 else EAGAIN
      ensures !old(readClosed) && old(Contents()) != [] ==> r == Min(count, old(bytesAvailable))
      ensures !old(readClosed) && old(Contents()) != [] ==> r == count || (r < count && Contents() == [])
      ensures !old(readClosed) && old(Contents()) == [] && !writeClosed ==> r == -11
      ensures var n := if r > 0 then r else 0;
              && n <= old(bytesAvailable)
              && dst[..n] == old(Contents())[..n] && dst[n..] == old(dst[..])[n..]
              && Contents() == old(Contents())[n..]
              && delivered == old(delivered) + old(Contents())[..n]
    {
      hide Slot, Waiting;
      if readClosed {
        return -1;
      }
      if bytesAvailable == 0 {
        return if writeClosed then 0 else EAGAIN;
      }
      var toRead := Min(count, bytesAvailable);
      ghost var was := Contents();
      for i := 0 to toRead
        invariant Valid() && bytesAvailable == |was| - i
        invariant Contents() == was[i..] && delivered == old(delivered) + was[..i]
        invariant forall j :: 0 <= j < i ==> dst[j] == was[j]
        invariant forall j :: i <= j < dst.Length ==> dst[j] == old(dst[j])
      {
        assert was[..i + 1] == was[..i] + [was[i]];
        assert was[i..][0] == was[i] && was[i..][1..] == was[i + 1..];
        var b := PopByte();
        dst[i] := b;
      }
      r := toRead;
    }

    /** `pipe_write`: accepts as many bytes as there is room for. */
    method Write(src: seq<bv8>) returns (r: int)
      requires Valid()
      modifies buf, this`writePos, this`bytesAvailable, this`accepted
      ensures Valid()
      ensures writeClosed ==> r == -1
      ensures !writeClosed ==>
                var n := Min(|src|, PIPE_BUF_SIZE - old(bytesAvailable));
                r == if n == 0 then EAGAIN else n
      ensures !writeClosed && r != |src| ==> |Contents()| == 4096 || (src == [] && r == -11)
      ensures !writeClosed ==> (r == -11 <==> src == [] || |old(Contents())| == 4096)
      ensures var n := if r > 0 then r else 0;
              && n <= |src|
              && Contents() == old(Contents()) + src[..n]
              && accepted == old(accepted) + src[..n]
    {
      hide Slot, Waiting;
      if writeClosed {
        return -1;
      }
      var space := PIPE_BUF_SIZE - bytesAvailable;
      var toWrite := Min(|src|, space);
      if toWrite == 0 {
        return EAGAIN;
      }
      ghost var was := Contents();
      for i := 0 to toWrite
        invariant Valid() && bytesAvailable == |was| + i
        invariant Contents() == was + src[..i] && accepted == old(accepted) + src[..i]
      {
        assert src[..i + 1] == src[..i] + [src[i]];
        PushByte(src[i]);
      }
      r := toWrite;
    }
  }

  lemma NextSlot(w: nat, r: nat, n: nat)
    requires w % PIPE_BUF_SIZE == Slot(r, n)
    ensures (w + 1) % WORD_LIMIT % PIPE_BUF_SIZE == Slot(r, n + 1)
  {
    WrapKeepsSlot(w + 1, 0);
    SlotOf(w, 1);
    SlotOf(r + n, 1);
  }

  // ---- whole runs ----

  datatype Call = ReadCall(count: nat) | WriteCall(src: seq<bv8>) | CloseRead | CloseWrite

  /** What a call returns: a read also fills the caller's buffer with `bytes`. */
  datatype Reply = Got(code: int, bytes: seq<bv8>) | Put(code: int) | Closed

  /** A pipe as a queue of bytes. */
  datatype PipeState = PipeState(queue: seq<bv8>, writeClosed: bool, readClosed: bool)

  const NEW_PIPE: PipeState := PipeState([], false, false)

  /** One call on a queue that holds at most `PIPE_BUF_SIZE` bytes. */
  function Step(s: PipeState, c: Call): (PipeState, Reply)
    requires |s.queue| <= PIPE_BUF_SIZE
  {
    match c
    case ReadCall(count) =>
      if s.readClosed then (s, Got(-1, []))
      else if s.queue == [] then (s, Got(if s.writeClosed then 0 else EAGAIN, []))
      else
        var n := Min(count, |s.queue|);
        (s.(queue := s.queue[n..]), Got(n, s.queue[..n]))
    case WriteCall(src) =>
      if s.writeClosed then (s, Put(-1))
      else
        var n := Min(|src|, PIPE_BUF_SIZE - |s.queue|);
        if n == 0 then (s, Put(EAGAIN)) else (s.(queue := s.queue + src[..n]), Put(n))
    case CloseRead => (s.(readClosed := true), Closed)
    case CloseWrite => (s.(writeClosed := true), Closed)
  }

  function Run(s: PipeState, calls: seq<Call>): (r: (PipeState, seq<Reply>))
    requires |s.queue| <= PIPE_BUF_SIZE
    ensures |r.0.queue| <= PIPE_BUF_SIZE && |r.1| == |calls|
    decreases |calls|
  {
    if calls == [] then (s, [])
    else
      var n := |calls| - 1;
      var (before, replies) := Run(s, calls[..n]);
      var (after, reply) := Step(before, calls[n]);
      (after, replies + [reply])
  }

  /** What a write call that returned `a` put into the pipe. */
  function Accepted(c: Call, a: Reply): seq<bv8> {
    if c.WriteCall? && a.Put? && 0 <= a.code <= |c.src| then c.src[..a.code] else []
  }

  function Delivered(a: Reply): seq<bv8> {
    if a.Got? then a.bytes else []
  }

  function AllAccepted(calls: seq<Call>, replies: seq<Reply>): seq<bv8>
    requires |calls| == |replies|
    decreases |calls|
  {
    if calls == [] then []
    else
      var n := |calls| - 1;
      AllAccepted(calls[..n], replies[..n]) + Accepted(calls[n], replies[n])
  }

  function AllDelivered(replies: seq<Reply>): seq<bv8>
    decreases |replies|
  {
    if replies == [] then []
    else AllDelivered(replies[..|replies| - 1]) + Delivered(replies[|replies| - 1])
  }

  /** First in, first out over any run: what the reads returned, followed by what still waits,
      is what the writes accepted. */
  lemma {:induction false} RunIsFifo(calls: seq<Call>)
    ensures var (s, replies) := Run(NEW_PIPE, calls);
            AllDelivered(replies) + s.queue == AllAccepted(calls, replies)
    decreases |calls|
  {
    if calls != [] {
      var n := |calls| - 1;
      RunIsFifo(calls[..n]);
      var (before, front) := Run(NEW_PIPE, calls[..n]);
      var (s, replies) := Run(NEW_PIPE, calls);
      assert replies[..n] == front;
      StepIsFifo(before, calls[n], AllDelivered(front), AllAccepted(calls[..n], front));
    }
  }

  lemma StepIsFifo(s: PipeState, c: Call, delivered: seq<bv8>, accepted: seq<bv8>)
    requires |s.queue| <= PIPE_BUF_SIZE && delivered + s.queue == accepted
    ensures var (r, a) := Step(s, c);
            (delivered + Delivered(a)) + r.queue == accepted + Accepted(c, a)
  {
    match c
    case ReadCall(count) =>
      var n := Min(count, |s.queue|);
      assert s.queue == s.queue[..n] + s.queue[n..];
      assert delivered + (s.queue[..n] + s.queue[n..]) == (delivered + s.queue[..n]) + s.queue[n..];
    case WriteCall(src) =>
      var n := Min(|src|, PIPE_BUF_SIZE - |s.queue|);
      assert delivered + (s.queue + src[..n]) == (delivered + s.queue) + src[..n];
      assert src[..0] == [];
    case CloseRead =>
    case CloseWrite =>
  }

  /** One call on the ring is one call on the queue. */
  method Perform(p: Pipe, c: Call) returns (a: Reply)
    requires p.Valid()
    modifies p, p.buf
    ensures p.Valid() && (p.State(), a) == Step(old(p.State()), c)
    ensures p.accepted == old(p.accepted) + Accepted(c, a)
    ensures p.delivered == old(p.delivered) + Delivered(a)
  {
    hide Slot, Waiting;
    ghost var was := p.Contents();
    assert was[..0] == [] && was[0..] == was;
    match c
    case ReadCall(count) =>
      var dst := new bv8[count](_ => 0);
      var r := p.Read(dst, count);
      a := Got(r, if r > 0 then dst[..r] else []);
    case WriteCall(src) =>
      var r := p.Write(src);
      a := Put(r);
      assert src[..0] == [] && was + [] == was;
    case CloseRead =>
      p.readClosed := true;
      a := Closed;
    case CloseWrite =>
      p.writeClosed := true;
      a := Closed;
  }

  /** Any run of reads, writes and closes on a new pipe returns what the queue returns. */
  method Drive(calls: seq<Call>) returns (p: Pipe, replies: seq<Reply>)
    ensures p.Valid() && (p.State(), replies) == Run(NEW_PIPE, calls)
    ensures p.delivered == AllDelivered(replies) && p.accepted == AllAccepted(calls, replies)
  {
    hide Step, Accepted, Delivered;
    p := new Pipe();
    replies := [];
    for k := 0 to |calls|
      invariant p.Valid() && fresh(p) && fresh(p.buf)
      invariant (p.State(), replies) == Run(NEW_PIPE, calls[..k])
      invariant p.delivered == AllDelivered(replies) && p.accepted == AllAccepted(calls[..k], replies)
    {
      assert calls[..k + 1][..k] == calls[..k];
      var a := Perform(p, calls[k]);
      assert (replies + [a])[..k] == replies;
      replies := replies + [a];
    }
    assert calls[..|calls|] == calls;
  }
}
