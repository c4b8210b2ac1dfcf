/** Block maps as sequences of "is free" flags: runs of free blocks, the
    first-fit choice among them, range updates and free-block counts. Both
    block allocators of the port (the OSPI bitmap heap and the OSPI area
    allocator of the garbage collector) are specified on these. */
module Runs {
  import opened Base

  /** A run of `n` free blocks begins at `start`. */
  predicate FreeRun(free: seq<bool>, start: nat, n: nat) {
    start + n <= |free| && forall j :: start <= j < start + n ==> free[j]
  }

  /** First fit, stated directly: the lowest start at or after `from` that
      begins a run of `n` free blocks (an independent reference definition,
      not the counting scan the allocators perform). */
  function FirstFitFrom(free: seq<bool>, n: nat, from: nat): (r: Option<nat>)
    decreases |free| - from
    ensures r.Some? ==> from <= r.value && FreeRun(free, r.value, n)
    ensures r.Some? ==> forall k: nat :: from <= k < r.value ==> !FreeRun(free, k, n)
    ensures r.None? ==> forall k: nat :: from <= k ==> !FreeRun(free, k, n)
  {
    if from + n > |free| then None
    else if FreeRun(free, from, n) then Some(from)
    else FirstFitFrom(free, n, from + 1)
  }

  function FirstFit(free: seq<bool>, n: nat): Option<nat> {
    FirstFitFrom(free, n, 0)
  }

  /** The least free-run start is the first fit. */
  lemma FirstFitIsLeast(free: seq<bool>, n: nat, start: nat)
    requires FreeRun(free, start, n)
    requires forall k: nat :: k < start ==> !FreeRun(free, k, n)
    ensures FirstFit(free, n) == Some(start)
  {
  }

  /** Blocks `[start, start + n)` set to `v`, every other block kept. */
  function SetRange(free: seq<bool>, start: nat, n: nat, v: bool): (r: seq<bool>)
    requires start + n <= |free|
    ensures |r| == |free|
  {
    seq(|free|, i requires 0 <= i < |free| => if start <= i < start + n then v else free[i])
  }

  /** Growing a range by one block. */
  lemma SetRangeExtend(free: seq<bool>, start: nat, n: nat, v: bool)
    requires start + n < |free|
    ensures SetRange(free, start, n, v)[start + n := v] == SetRange(free, start, n + 1, v)
  {
  }

  /** Setting the block after a set range extends the range. */
  lemma SetRangeGrow(free: seq<bool>, start: nat, n: nat, v: bool)
    requires start + n < |free|
    ensures SetRange(SetRange(free, start, n, v), start + n, 1, v) == SetRange(free, start, n + 1, v)
  {
  }

  /** Number of free blocks. */
  function CountFree(free: seq<bool>): (c: nat)
    ensures c <= |free|
  {
    if free == [] then 0
    else CountFree(free[..|free| - 1]) + (if free[|free| - 1] then 1 else 0)
  }

  lemma {:induction false} CountFreeAppend(a: seq<bool>, b: seq<bool>)
    ensures CountFree(a + b) == CountFree(a) + CountFree(b)
    decreases |b|
  {
    if b == [] {
      assert a + b == a;
    } else {
      var b' := b[..|b| - 1];
      assert (a + b)[..|a + b| - 1] == a + b';
      CountFreeAppend(a, b');
    }
  }

  lemma {:induction false} CountFreeUniform(s: seq<bool>, v: bool)
    requires forall i :: 0 <= i < |s| ==> s[i] == v
    ensures CountFree(s) == if v then |s| else 0
  {
    if s != [] {
      CountFreeUniform(s[..|s| - 1], v);
    }
  }

  lemma CountFreeSplit(s: seq<bool>, i: nat, j: nat)
    requires i <= j <= |s|
    ensures CountFree(s) == CountFree(s[..i]) + CountFree(s[i..j]) + CountFree(s[j..])
  {
    SliceConcat(s, i, j);
    CountFreeAppend(s[..j], s[j..]);
    CountFreeAppend(s[..i], s[i..j]);
  }

  /** Setting a range to used (`v == false`) or free changes the count by
      exactly the number of blocks that flipped, when they all flipped. */
  lemma CountFreeSetRange(free: seq<bool>, start: nat, n: nat, v: bool)
    requires start + n <= |free|
    requires forall j :: start <= j < start + n ==> free[j] == !v
    ensures CountFree(SetRange(free, start, n, v)) == if v then CountFree(free) + n else CountFree(free) - n
  {
    var r := SetRange(free, start, n, v);
    CountFreeFlip(free, r, start, start + n, v);
  }

  /** Two maps equal outside `[i, j)`, uniformly `!v` and `v` inside it. */
  lemma CountFreeFlip(a: seq<bool>, b: seq<bool>, i: nat, j: nat, v: bool)
    requires i <= j <= |a| == |b|
    requires forall k :: 0 <= k < |a| && !(i <= k < j) ==> a[k] == b[k]
    requires forall k :: i <= k < j ==> a[k] == !v && b[k] == v
    ensures CountFree(b) == if v then CountFree(a) + (j - i) else CountFree(a) - (j - i)
  {
    SameOutside(a, b, i, j);
    CountFreeSplit(a, i, j);
    CountFreeSplit(b, i, j);
    CountFreeUniformRange(a, i, j, !v);
    CountFreeUniformRange(b, i, j, v);
  }

  lemma SameOutside(a: seq<bool>, b: seq<bool>, i: nat, j: nat)
    requires i <= j <= |a| == |b|
    requires forall k :: 0 <= k < |a| && !(i <= k < j) ==> a[k] == b[k]
    ensures a[..i] == b[..i] && a[j..] == b[j..]
  {
    assert a[..i] == b[..i];
    assert a[j..] == b[j..];
  }

  lemma CountFreeUniformRange(s: seq<bool>, i: nat, j: nat, v: bool)
    requires i <= j <= |s|
    requires forall k :: i <= k < j ==> s[k] == v
    ensures CountFree(s[i..j]) == if v then j - i else 0
  {
    CountFreeUniform(s[i..j], v);
  }

  /** The end of the maximal run of used blocks that starts at `b`: the first
      free block at or after `b`, or the end of the map. */
  function UsedRunEnd(free: seq<bool>, b: nat): (e: nat)
    requires b <= |free|
    decreases |free| - b
    ensures b <= e <= |free|
    ensures forall j :: b <= j < e ==> !free[j]
    ensures e < |free| ==> free[e]
  {
    if b == |free| || free[b] then b else UsedRunEnd(free, b + 1)
  }

  /** Every used stretch starting at `b` lies inside the run `UsedRunEnd` ends. */
  lemma {:induction false} UsedRunEndCovers(free: seq<bool>, b: nat, c: nat)
    requires b <= c <= |free|
    requires forall j :: b <= j < c ==> !free[j]
    ensures UsedRunEnd(free, b) >= c
    decreases c - b
  {
    if b < c {
      UsedRunEndCovers(free, b + 1, c);
    }
  }
}
