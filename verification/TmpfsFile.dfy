/** The contents of one tmpfs file (fs/tmpfs/tmpfs.c): a heap block that grows by `krealloc`. */
module TmpfsFile {
  import opened Wrappers
  import opened Words

  const ENOMEM: int := 12
  const GROWTH_STEP: nat := 512

  // ---- what a file should be ----

  /** What has been stored: the size, and the bytes at the positions that were ever written. */
  datatype Store = Store(size: nat, bytes: map<nat, bv8>)

  /** The store after writing `src` at `offset`. */
  function Written(s: Store, offset: nat, src: seq<bv8>): Store {
    Store(Max(s.size, offset + |src|),
          map k | k in s.bytes.Keys + Span(offset, |src|) ::
            if offset <= k < offset + |src| then src[k - offset] else s.bytes[k])
  }

  function Max(a: nat, b: nat): nat {
    if a < b then b else a
  }

  function Min(a: nat, b: nat): nat {
    if a < b then a else b
  }

  predicate Within(k: nat, offset: nat, n: nat) {
    offset <= k < offset + n
  }

  function Span(offset: nat, n: nat): set<nat> {
    set k: nat | offset <= k < offset + n && Within(k, offset, n)
  }

  datatype Request = Request(offset: nat, src: seq<bv8>)

  /** The store after the accepted writes, in order. */
  function Replay(done: seq<Request>): Store
    decreases |done|
  {
    if done == [] then Store(0, map[])
    else
      var last := done[|done| - 1];
      Written(Replay(done[..|done| - 1]), last.offset, last.src)
  }

  /** Write `w` covers position `k`. */
  predicate Covers(w: Request, k: nat) {
    w.offset <= k < w.offset + |w.src|
  }

  /** A position holds the byte of the last accepted write that covers it. */
  lemma {:induction false} LastWriteWins(done: seq<Request>, i: nat, k: nat)
    requires i < |done| && Covers(done[i], k)
    requires forall j :: i < j < |done| ==> !Covers(done[j], k)
    ensures k in Replay(done).bytes && Replay(done).bytes[k] == done[i].src[k - done[i].offset]
    decreases |done|
  {
    var last := |done| - 1;
    var front := done[..last];
    if i == last {
      assert Within(k, done[i].offset, |done[i].src|);
    } else {
      assert !Covers(done[last], k);
      LastWriteWins(front, i, k);
    }
  }

  /** A position that no accepted write covers holds nothing: it is past the end or in a hole. */
  lemma {:induction false} HolesAreUnwritten(done: seq<Request>, k: nat)
    requires forall j :: 0 <= j < |done| ==> !Covers(done[j], k)
    ensures k !in Replay(done).bytes
    decreases |done|
  {
    if done != [] {
      assert !Covers(done[|done| - 1], k);
      HolesAreUnwritten(done[..|done| - 1], k);
    }
  }

  /** The size is the largest end of an accepted write, and 0 before the first one. */
  lemma {:induction false} SizeIsLargestEnd(done: seq<Request>)
    ensures forall i :: 0 <= i < |done| ==> done[i].offset + |done[i].src| <= Replay(done).size
    ensures done == [] ==> Replay(done).size == 0
    ensures done != [] ==> exists i :: 0 <= i < |done| && done[i].offset + |done[i].src| == Replay(done).size
    decreases |done|
  {
    if done != [] {
      var last := |done| - 1;
      var front := done[..last];
      SizeIsLargestEnd(front);
      assert forall i :: 0 <= i < last ==> front[i] == done[i];
      if Replay(done).size != done[last].offset + |done[last].src| {
        var i :| 0 <= i < |front| && front[i].offset + |front[i].src| == Replay(front).size;
        assert done[i].offset + |done[i].src| == Replay(done).size;
      }
    }
  }

  // ---- runs of writes ----

  /** What a file keeps: the store, its capacity and the length of its heap block (0 without a
      block). */
  datatype Disk = Disk(store: Store, capacity: nat, block: nat)

  const NEW_DISK: Disk := Disk(Store(0, map[]), 0, 0)

  /** One write: it grows the block when the end passes the capacity, and is refused exactly
      when the block is too small for that and the heap has no room. */
  function WriteStep(d: Disk, w: Request, granted: bool, slack: nat): (Disk, int) {
    var end := w.offset + |w.src|;
    var cap := if end > d.capacity then AlignUp(end, GROWTH_STEP) else d.capacity;
    if end > d.capacity && d.block < cap && !granted then (d, -ENOMEM)
    else
      (Disk(Written(d.store, w.offset, w.src), cap,
            if end > d.capacity && d.block < cap then cap + slack else d.block), |w.src|)
  }

  function Run(calls: seq<Request>, grants: seq<bool>, slacks: seq<nat>): (r: (Disk, seq<int>))
    requires |grants| == |slacks| == |calls|
    ensures |r.1| == |calls|
    decreases |calls|
  {
    if calls == [] then (NEW_DISK, [])
    else
      var n := |calls| - 1;
      var (before, codes) := Run(calls[..n], grants[..n], slacks[..n]);
      var (after, code) := WriteStep(before, calls[n], grants[n], slacks[n]);
      (after, codes + [code])
  }

  /** Over any run the file holds exactly what the accepted writes stored, a write returns its
      byte count or ENOMEM, and only a write that the heap has no room for returns ENOMEM. */
  lemma {:induction false} RunStoresAccepted(calls: seq<Request>, grants: seq<bool>, slacks: seq<nat>)
    requires |grants| == |slacks| == |calls|
    ensures var (d, codes) := Run(calls, grants, slacks);
            && d.store == Replay(Accepted(calls, codes))
            && forall i :: 0 <= i < |codes| ==> codes[i] == |calls[i].src| || (codes[i] == -ENOMEM && !grants[i])
    decreases |calls|
  {
    hide Written, Replay, AlignUp;
    if calls == [] {
      NothingStored();
    } else {
      var n := |calls| - 1;
      RunStoresAccepted(calls[..n], grants[..n], slacks[..n]);
      var (before, codes) := Run(calls[..n], grants[..n], slacks[..n]);
      var code := WriteStep(before, calls[n], grants[n], slacks[n]).1;
      AcceptOne(calls[..n], codes, calls[n], code);
      assert calls[..n] + [calls[n]] == calls;
    }
  }

  lemma NothingStored()
    ensures Replay([]) == Store(0, map[])
  {
  }

  /** The requests whose call returned a byte count. */
  function Accepted(calls: seq<Request>, codes: seq<int>): seq<Request>
    requires |calls| == |codes|
    decreases |calls|
  {
    if calls == [] then []
    else
      var last := |calls| - 1;
      Accepted(calls[..last], codes[..last]) + (if codes[last] >= 0 then [calls[last]] else [])
  }

  lemma AcceptOne(calls: seq<Request>, codes: seq<int>, call: Request, code: int)
    requires |calls| == |codes|
    ensures var done := Accepted(calls + [call], codes + [code]);
            && (code < 0 ==> done == Accepted(calls, codes))
            && (code >= 0 ==> done == Accepted(calls, codes) + [call]
                              && Replay(done) == Written(Replay(Accepted(calls, codes)), call.offset, call.src))
  {
    assert (calls + [call])[..|calls|] == calls && (codes + [code])[..|codes|] == codes;
    assert (Accepted(calls, codes) + [call])[..|Accepted(calls, codes)|] == Accepted(calls, codes);
  }

  // ---- the environment ----

  /** `krealloc` as the heap provides it: the same block when it is big enough, else a bigger
      one that starts with the old block's bytes, else nothing. */
  method Krealloc(block: array?<bv8>, n: nat, granted: bool, slack: nat) returns (r: array?<bv8>)
    ensures r == null <==> (block == null || block.Length < n) && !granted
    ensures r != null ==> r.Length == if block != null && block.Length >= n then block.Length else n + slack
    ensures r != null && r != block ==> fresh(r)
    ensures r != null && block != null ==> block.Length <= r.Length && r[..block.Length] == block[..]
  {
    if block != null && block.Length >= n {
      return block;
    }
    if !granted {
      return null;
    }
    r := new bv8[n + slack];
    if block != null {
      for i := 0 to block.Length
        invariant r[..i] == block[..i]
      {
        r[i] := block[i];
      }
    }
  }

  /** A file grows to the next multiple of 512. */
  lemma AlignUpReaches(x: nat)
    ensures x <= AlignUp(x, GROWTH_STEP) < x + 512
    ensures AlignUp(x, GROWTH_STEP) % 512 == 0
  {
  }

  // ---- the file ----

  class File {
    var data: array?<bv8>
    var capacity: nat
    var size: nat
    ghost var store: Store

    ghost predicate Valid()
      reads this, data
    {
      && (data == null ==> capacity == 0)
      && (data != null ==> capacity <= data.Length)
      && store.size == size <= capacity
      && (forall k :: k in store.bytes ==> k < size && data != null && data[k] == store.bytes[k])
    }

    ghost function Abs(): Disk
      reads this, data
    {
      Disk(store, capacity, if data == null then 0 else data.Length)
    }

    constructor ()
      ensures Valid() && data == null && Abs() == NEW_DISK
    {
      data, capacity, size := null, 0, 0;
      store := Store(0, map[]);
    }

    /** `tmpfs_read` */
    method Read(offset: nat, count: nat, buf: array<bv8>) returns (n: int)
      requires Valid() && count <= buf.Length && buf != data
      modifies buf
      ensures Valid()
      ensures n == if offset >= size then 0 else Min(count, size - offset)
      ensures 0 <= n <= count && (n < count ==> offset + n >= size) && (n > 0 ==> offset + n <= size)
      ensures forall k :: offset <= k < offset + n && k in store.bytes ==> buf[k - offset] == store.bytes[k]
      ensures forall i :: n <= i < buf.Length ==> buf[i] == old(buf[i])
    {
      if data == null || offset >= size {
        return 0;
      }
      var avail := size - offset;
      var toRead := Min(count, avail);
      for i := 0 to toRead
        invariant data[..] == old(data[..])
        invariant forall j :: 0 <= j < i ==> buf[j] == data[offset + j]
        invariant forall j :: i <= j < buf.Length ==> buf[j] == old(buf[j])
      {
        buf[i] := data[offset + i];
      }
      n := toRead;
    }

    /** `tmpfs_write`.  `granted` and `slack` are the heap's choices. */
    method Write(offset: nat, src: seq<bv8>, granted: bool, slack: nat) returns (n: int)
      requires Valid() && offset + |src| + GROWTH_STEP <= WORD_LIMIT
      modifies this, data
      ensures Valid() && (data != old(data) ==> fresh(data))
      ensures (Abs(), n) == WriteStep(old(Abs()), Request(offset, src), granted, slack)
      ensures n == -ENOMEM <==>
              && offset + |src| > old(capacity)
              && (old(data) == null || old(data).Length < AlignUp(offset + |src|, GROWTH_STEP))
              && !granted
      ensures n == -ENOMEM ==> unchanged(this) && (data != null ==> unchanged(data))
    {
      var newEnd := offset + |src|;
      if newEnd > capacity {
        var newCap := AlignUp(newEnd, GROWTH_STEP);
        AlignUpReaches(newEnd);
        var newData := Krealloc(data, newCap, granted, slack);
        if newData == null {
          return -ENOMEM;
        }
        data := newData;
        capacity := newCap;
      }
      StoreBytes(offset, src);
      n := |src|;
    }

    /** The end of `tmpfs_write`: the copy and the size. */
    method StoreBytes(offset: nat, src: seq<bv8>)
      requires Valid() && offset + |src| <= capacity
      modifies this`size, this`store, data
      ensures Valid() && Abs() == old(Abs()).(store := Written(old(store), offset, src))
    {
      CopyIn(offset, src);
      if offset + |src| > size {
        size := offset + |src|;
      }
      store := Written(store, offset, src);
    }

    /** The `memcpy` into the block. */
    method CopyIn(offset: nat, src: seq<bv8>)
      requires data == null ==> src == []
      requires data != null ==> offset + |src| <= data.Length
      modifies data
      ensures data != null ==>
                forall k :: 0 <= k < data.Length ==>
                  data[k] == if offset <= k < offset + |src| then src[k - offset] else old(data[k])
    {
      for i := 0 to |src|
        invariant data != null ==>
                    forall k :: 0 <= k < data.Length ==>
                      data[k] == if offset <= k < offset + i then src[k - offset] else old(data[k])
      {
        data[offset + i] := src[i];
      }
    }
  }

  /** What was written is read back: the whole of it, unless the heap had no room for it, and then
      the file is as it was. */
  method WriteThenRead(f: File, offset: nat, src: seq<bv8>, granted: bool, slack: nat) returns (n: int, back: array<bv8>)
    requires f.Valid() && offset + |src| + GROWTH_STEP <= WORD_LIMIT
    modifies f, f.data
    ensures f.Valid() && fresh(back)
    ensures n == |src| || (n == -12 && !granted && f.Abs() == old(f.Abs()))
    ensures n == |src| ==> back[..] == src
  {
    n := f.Write(offset, src, granted, slack);
    back := new bv8[|src|](_ => 0);
    if n >= 0 {
      StoredAt(old(f.store), offset, src);
      var m := f.Read(offset, |src|, back);
      assert m == |src| && f.store == Written(old(f.store), offset, src);
      forall i | 0 <= i < |src|
        ensures back[i] == src[i]
      {
        var k := offset + i;
        assert back[k - offset] == f.store.bytes[k];
      }
    }
  }

  lemma StoredAt(s: Store, offset: nat, src: seq<bv8>)
    ensures offset + |src| <= Written(s, offset, src).size
    ensures forall k :: offset <= k < offset + |src| ==>
              k in Written(s, offset, src).bytes && Written(s, offset, src).bytes[k] == src[k - offset]
  {
    assert forall k :: offset <= k < offset + |src| ==> Within(k, offset, |src|);
  }

  /** Any run of writes on a new file returns what the run on values returns. */
  method Drive(calls: seq<Request>, grants: seq<bool>, slacks: seq<nat>) returns (f: File, codes: seq<int>)
    requires |grants| == |slacks| == |calls|
    requires forall i :: 0 <= i < |calls| ==> calls[i].offset + |calls[i].src| + GROWTH_STEP <= WORD_LIMIT
    ensures f.Valid() && (f.Abs(), codes) == Run(calls, grants, slacks)
  {
    hide Written, WriteStep;
    f := new File();
    codes := [];
    for i := 0 to |calls|
      invariant f.Valid() && fresh(f) && (f.data != null ==> fresh(f.data))
      invariant (f.Abs(), codes) == Run(calls[..i], grants[..i], slacks[..i])
    {
      var n := f.Write(calls[i].offset, calls[i].src, grants[i], slacks[i]);
      assert calls[..i + 1][..i] == calls[..i] && grants[..i + 1][..i] == grants[..i]
             && slacks[..i + 1][..i] == slacks[..i];
      assert Request(calls[i].offset, calls[i].src) == calls[i];
      codes := codes + [n];
    }
    assert calls[..|calls|] == calls && grants[..|calls|] == grants && slacks[..|calls|] == slacks;
  }
}
