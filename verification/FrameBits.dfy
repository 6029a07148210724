/** The physical page bitmap read as a sequence of flags: counting free pages, filling
    ranges and finding runs of free pages. */
module FrameBits {

  /** Number of pages whose bit is zero. */
  function FreeCount(used: seq<bool>): nat {
    if used == [] then 0
    else FreeCount(used[..|used| - 1]) + (if used[|used| - 1] then 0 else 1)
  }

  /** The pages of `[lo, hi)` set to `b`, every other page as before. */
  function Filled(used: seq<bool>, lo: int, hi: int, b: bool): (r: seq<bool>)
    ensures |r| == |used|
  {
    seq(|used|, i requires 0 <= i < |used| => if lo <= i < hi then b else used[i])
  }

  /** `n` consecutive free pages start at page `s`. */
  predicate IsRun(used: seq<bool>, s: nat, n: nat) {
    s + n <= |used| && forall i :: s <= i < s + n ==> !used[i]
  }

  /** `s` is the lowest start of `n` consecutive free pages. */
  ghost predicate IsLowestRun(used: seq<bool>, s: nat, n: nat) {
    IsRun(used, s, n) && forall t: nat :: t < s ==> !IsRun(used, t, n)
  }

  ghost predicate HasRun(used: seq<bool>, n: nat) {
    exists s: nat :: IsRun(used, s, n)
  }

  /** Every page below `n` is used. */
  ghost predicate AllUsedBelow(used: seq<bool>, n: nat) {
    forall i :: 0 <= i < n && i < |used| ==> used[i]
  }

  /** `i` is the first free page at or above `hint`, or, when there is none, the first
      free page below it. */
  ghost predicate IsNextFit(used: seq<bool>, hint: nat, i: nat) {
    && i < |used| && !used[i]
    && (hint <= i ==> forall j :: hint <= j < i ==> used[j])
    && (i < hint ==> AllUsedBelow(used, i) && forall j :: hint <= j < |used| ==> used[j])
  }

  lemma {:induction false} FreeCountUpdate(used: seq<bool>, i: nat, b: bool)
    requires i < |used|
    ensures FreeCount(used[i := b]) ==
            FreeCount(used) + (if used[i] then 1 else 0) - (if b then 1 else 0)
  {
    var last := |used| - 1;
    if i == last {
      assert used[i := b][..last] == used[..last];
    } else {
      assert used[i := b][..last] == used[..last][i := b];
      FreeCountUpdate(used[..last], i, b);
    }
  }

  lemma {:induction false} AllUsedCountsZero(used: seq<bool>)
    requires forall i :: 0 <= i < |used| ==> used[i]
    ensures FreeCount(used) == 0
  {
    if used != [] {
      AllUsedCountsZero(used[..|used| - 1]);
    }
  }

  /** The counter is positive exactly when some page is free. */
  lemma {:induction false} FreeCountPositive(used: seq<bool>)
    ensures FreeCount(used) > 0 <==> exists i :: 0 <= i < |used| && !used[i]
  {
    if used != [] {
      var last := |used| - 1;
      FreeCountPositive(used[..last]);
      if i :| 0 <= i < |used| && !used[i] {
        assert i == last || !used[..last][i];
      }
      if i :| 0 <= i < last && !used[..last][i] {
        assert !used[i];
      }
    }
  }

  lemma FillOne(used: seq<bool>, lo: nat, i: nat, b: bool)
    requires lo <= i < |used|
    ensures Filled(used, lo, i + 1, b) == Filled(used, lo, i, b)[i := b]
  {
  }

  lemma FillKeep(used: seq<bool>, lo: nat, i: nat, b: bool)
    requires lo <= i < |used| && Filled(used, lo, i, b)[i] == b
    ensures Filled(used, lo, i + 1, b) == Filled(used, lo, i, b)
  {
  }

  lemma FilledPastEnd(used: seq<bool>, lo: nat, i: nat, hi: nat, b: bool)
    requires i <= hi && (i == hi || |used| <= i)
    ensures Filled(used, lo, i, b) == Filled(used, lo, hi, b)
  {
  }

  lemma FillNone(used: seq<bool>, lo: nat, b: bool)
    ensures Filled(used, lo, lo, b) == used
  {
  }

  /** Taking a run of `n` free pages lowers the count by `n`. */
  lemma {:induction false} RunCount(used: seq<bool>, s: nat, n: nat)
    requires IsRun(used, s, n)
    ensures FreeCount(Filled(used, s, s + n, true)) == FreeCount(used) - n
  {
    if n == 0 {
      FillNone(used, s, true);
    } else {
      RunCount(used, s, n - 1);
      FillOne(used, s, s + n - 1, true);
      FreeCountUpdate(Filled(used, s, s + n - 1, true), s + n - 1, true);
    }
  }

  /** Releasing a run that was just taken restores the bitmap. */
  lemma FillBack(used: seq<bool>, s: nat, n: nat)
    requires IsRun(used, s, n)
    ensures Filled(Filled(used, s, s + n, true), s, s + n, false) == used
  {
  }

  /** The search from the hint finds the lowest free page if and only if it wrapped around or
      the hint was tight. */
  lemma NextFitIsLowest(used: seq<bool>, hint: nat, i: nat)
    requires IsNextFit(used, hint, i)
    ensures IsLowestRun(used, i, 1) <==> i < hint || AllUsedBelow(used, hint)
    ensures i < hint ==> AllUsedBelow(used, i)
  {
    if i < hint || AllUsedBelow(used, hint) {
      forall t: nat | t < i
        ensures !IsRun(used, t, 1)
      {
        assert used[t];
      }
    } else {
      var t: nat :| t < hint && !used[t];
      assert IsRun(used, t, 1);
    }
  }

  lemma UsedBelowTaken(used: seq<bool>, i: nat)
    requires i < |used|
    ensures AllUsedBelow(used[i := true], i + 1) <==> AllUsedBelow(used, i)
  {
    if AllUsedBelow(used[i := true], i + 1) {
      forall j | 0 <= j < i
        ensures used[j]
      {
        assert used[i := true][j];
      }
    }
  }

  lemma UsedBelowFilled(used: seq<bool>, lo: nat, hi: nat, n: nat)
    requires n <= |used|
    ensures AllUsedBelow(used, n) ==> AllUsedBelow(Filled(used, lo, hi, true), n)
    ensures AllUsedBelow(Filled(used, lo, hi, false), n) <==>
            AllUsedBelow(used, n) && (hi <= lo || n <= lo)
  {
    var released := Filled(used, lo, hi, false);
    assert lo < hi && lo < n ==> !released[lo];
    if AllUsedBelow(released, n) {
      forall j | 0 <= j < n
        ensures used[j]
      {
        assert released[j];
      }
    }
  }
}
