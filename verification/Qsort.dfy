/** Model of lib-src/qsort.c: the non-recursive quicksort with an explicit
    stack, followed by an insertion sort whose inner scan has no bounds test.
    Pointers into the array become indices; elements are moved as values. */
module Qsort {
  const MAX_THRESH := 4

  // BYTES_PER_WORD * sizeof (long) for a 4-byte long, the smaller of the usual cases.
  const STACK_SIZE := 32

  // total_elems is a 32-bit int.
  const INT_MAX := 0x7FFF_FFFF

  // ---------------------------------------------------------------- ordering

  /** What qsort asks of its comparison function. */
  ghost predicate TotalPreorder<T(!new)>(cmp: (T, T) -> int) {
    Mirrored(cmp) && Transitive(cmp)
  }

  ghost predicate Mirrored<T(!new)>(cmp: (T, T) -> int) {
    forall x, y :: cmp(x, y) < 0 <==> cmp(y, x) > 0
  }

  ghost predicate Transitive<T(!new)>(cmp: (T, T) -> int) {
    forall x, y, z :: Chain(cmp, x, y, z)
  }

  lemma NotLess<T(!new)>(cmp: (T, T) -> int, x: T, y: T)
    requires Mirrored(cmp)
    ensures cmp(x, y) < 0 ==> Le(cmp, x, y)
    ensures cmp(x, y) < 0 <==> !Le(cmp, y, x)
  {
    assert cmp(y, x) > 0 <==> cmp(x, y) < 0;
  }

  // Named so that transitivity is applied only where a proof mentions a chain.
  ghost predicate Chain<T(!new)>(cmp: (T, T) -> int, x: T, y: T, z: T) {
    Le(cmp, x, y) && Le(cmp, y, z) ==> Le(cmp, x, z)
  }

  ghost predicate Le<T(!new)>(cmp: (T, T) -> int, x: T, y: T) {
    cmp(x, y) <= 0
  }

  ghost predicate Sorted<T(!new)>(cmp: (T, T) -> int, s: seq<T>) {
    forall i, j :: 0 <= i < j < |s| ==> Le(cmp, s[i], s[j])
  }

  /** Every element of s[..b] is at most every element of s[b..]. */
  ghost predicate SplitAt<T(!new)>(cmp: (T, T) -> int, s: seq<T>, b: nat) {
    forall i, j :: 0 <= i < b <= j < |s| ==> Le(cmp, s[i], s[j])
  }

  /** Index m holds a least element. */
  ghost predicate IsMinAt<T(!new)>(cmp: (T, T) -> int, s: seq<T>, m: nat) {
    m < |s| && forall j :: 0 <= j < |s| ==> Le(cmp, s[m], s[j])
  }

  /** Some least element sits among the first MAX_THRESH + 1 positions. */
  ghost predicate MinUpFront<T(!new)>(cmp: (T, T) -> int, s: seq<T>) {
    |s| > 0 ==> exists m: nat :: m <= MAX_THRESH && IsMinAt(cmp, s, m)
  }

  lemma {:induction false} PrefixMin<T(!new)>(cmp: (T, T) -> int, s: seq<T>, b: nat) returns (m: nat)
    requires TotalPreorder(cmp) && 0 < b <= |s|
    ensures m < b && forall j :: 0 <= j < b ==> Le(cmp, s[m], s[j])
  {
    if b == 1 {
      m := 0;
    } else {
      m := PrefixMin(cmp, s, b - 1);
      if !Le(cmp, s[m], s[b - 1]) {
        forall j | 0 <= j < b - 1 ensures Le(cmp, s[b - 1], s[j]) {
          assert Chain(cmp, s[b - 1], s[m], s[j]);
        }
        m := b - 1;
      }
    }
  }

  /** A split whose lower part is short enough puts the minimum up front. */
  lemma {:induction false} SplitGivesMin<T(!new)>(cmp: (T, T) -> int, s: seq<T>, b: nat)
    requires TotalPreorder(cmp) && 0 < b <= |s| && b <= MAX_THRESH + 1
    requires SplitAt(cmp, s, b)
    ensures MinUpFront(cmp, s)
  {
    var m := PrefixMin(cmp, s, b);
    assert IsMinAt(cmp, s, m);
  }

  // ------------------------------------------------------------ permutations

  /** t rearranges s inside [lo, hi] and nowhere else. */
  ghost predicate Shuffled<T>(s: seq<T>, t: seq<T>, lo: nat, hi: int)
    requires lo <= hi + 1 <= |s|
  {
    && |t| == |s|
    && t[..lo] == s[..lo]
    && t[hi + 1..] == s[hi + 1..]
    && multiset(t[lo..hi + 1]) == multiset(s[lo..hi + 1])
  }

  lemma {:induction false} ShuffledWhole<T>(s: seq<T>, t: seq<T>, lo: nat, hi: int)
    requires lo <= hi + 1 <= |s| && Shuffled(s, t, lo, hi)
    ensures multiset(t) == multiset(s)
  {
    assert s == s[..lo] + s[lo..hi + 1] + s[hi + 1..];
    assert t == t[..lo] + t[lo..hi + 1] + t[hi + 1..];
  }

  lemma ShuffledRefl<T>(s: seq<T>, lo: nat, hi: int)
    requires lo <= hi + 1 <= |s|
    ensures Shuffled(s, s, lo, hi)
  {
  }

  lemma {:induction false} ShuffledTrans<T>(s: seq<T>, t: seq<T>, u: seq<T>, lo: nat, hi: int)
    requires lo <= hi + 1 <= |s| && Shuffled(s, t, lo, hi) && Shuffled(t, u, lo, hi)
    ensures Shuffled(s, u, lo, hi)
  {
  }

  /** Every element of the shuffled range was in that range before. */
  lemma {:induction false} ShuffledFrom<T>(s: seq<T>, t: seq<T>, lo: nat, hi: int, k: nat) returns (k': nat)
    requires lo <= hi + 1 <= |s| && Shuffled(s, t, lo, hi) && lo <= k <= hi
    ensures lo <= k' <= hi && s[k'] == t[k]
  {
    assert t[k] == t[lo..hi + 1][k - lo];
    assert t[k] in multiset(t[lo..hi + 1]);
    assert t[k] in s[lo..hi + 1];
    var m :| 0 <= m < |s[lo..hi + 1]| && s[lo..hi + 1][m] == t[k];
    k' := lo + m;
  }

  /** A shuffle on one side of a split keeps the split. */
  lemma {:induction false} ShuffleKeepsSplit<T(!new)>(
      cmp: (T, T) -> int, s: seq<T>, t: seq<T>, lo: nat, hi: int, b: nat)
    requires lo <= hi + 1 <= |s| && Shuffled(s, t, lo, hi)
    requires SplitAt(cmp, s, b) && b <= |s| && (b <= lo || hi < b)
    ensures SplitAt(cmp, t, b)
  {
    forall i, j | 0 <= i < b <= j < |t| ensures Le(cmp, t[i], t[j]) {
      var i' := UnshuffledIndex(s, t, lo, hi, i);
      var j' := UnshuffledIndex(s, t, lo, hi, j);
    }
  }

  lemma {:induction false} UnshuffledIndex<T>(s: seq<T>, t: seq<T>, lo: nat, hi: int, k: nat) returns (k': nat)
    requires lo <= hi + 1 <= |s| && Shuffled(s, t, lo, hi) && k < |t|
    ensures k' < |s| && s[k'] == t[k] && (k' == k || (lo <= k <= hi && lo <= k' <= hi))
  {
    if lo <= k <= hi {
      k' := ShuffledFrom(s, t, lo, hi, k);
    } else {
      k' := k;
      if k < lo {
        assert s[..lo][k] == t[..lo][k];
      } else {
        assert s[hi + 1..][k - hi - 1] == t[hi + 1..][k - hi - 1];
      }
    }
  }

  method Swap<T>(a: array<T>, i: nat, j: nat, ghost lo: nat, ghost hi: nat)
    requires lo <= i <= hi < a.Length && lo <= j <= hi
    modifies a
    ensures a[i] == old(a[j]) && a[j] == old(a[i])
    ensures forall k :: 0 <= k < a.Length && k != i && k != j ==> a[k] == old(a[k])
    ensures Shuffled(old(a[..]), a[..], lo, hi)
  {
    a[i], a[j] := a[j], a[i];
    ghost var s, t := old(a[..]), a[..];
    ghost var u, v := s[lo..hi + 1], t[lo..hi + 1];
    assert v == u[i - lo := u[j - lo]][j - lo := u[i - lo]];
    assert t[..lo] == s[..lo];
  }

  // --------------------------------------------------------- quicksort phase

  /** Orders lo, mid and hi and returns the middle value as the pivot. */
  method MedianOfThree<T(!new)>(a: array<T>, lo: nat, hi: nat, cmp: (T, T) -> int) returns (pivot: T)
    requires Mirrored(cmp) && lo + 2 <= hi < a.Length
    modifies a
    ensures Shuffled(old(a[..]), a[..], lo, hi)
    ensures Le(cmp, a[lo], pivot) && Le(cmp, pivot, a[hi])
  {
    hide Shuffled;
    ghost var s := a[..];
    ShuffledRefl(s, lo, hi);
    var mid := lo + (hi - lo) / 2;
    if cmp(a[mid], a[lo]) < 0 {
      Swap(a, mid, lo, lo, hi);
    }
    ghost var t := a[..];
    if cmp(a[hi], a[mid]) < 0 {
      Swap(a, mid, hi, lo, hi);
      ShuffledTrans(s, t, a[..], lo, hi);
      ghost var u := a[..];
      if cmp(a[mid], a[lo]) < 0 {
        Swap(a, mid, lo, lo, hi);
        ShuffledTrans(s, u, a[..], lo, hi);
      }
    }
    pivot := a[mid];
  }

  /** The ``collapse the walls'' loop.  Neither inner scan tests a bound. */
  method Partition<T(!new)>(a: array<T>, lo: nat, hi: nat, cmp: (T, T) -> int) 
    returns (left: int, right: int, ghost pivot: T)
    requires Mirrored(cmp) && lo + 2 <= hi < a.Length
    modifies a
    ensures lo <= right < left <= hi
    ensures Shuffled(old(a[..]), a[..], lo, hi)
    ensures forall i :: lo <= i < left ==> Le(cmp, a[i], pivot)
    ensures forall j :: right < j <= hi ==> Le(cmp, pivot, a[j])
  {
    hide Shuffled, Mirrored, Le;
    ghost var s := a[..];
    var p := MedianOfThree(a, lo, hi, cmp);
    pivot := p;
    left, right := lo + 1, hi - 1;
    while left <= right  // lo + 2 <= hi, so testing first or last is the same
      invariant lo < left <= right + 2 && right < hi && left <= hi && lo <= right
      invariant Shuffled(s, a[..], lo, hi)
      invariant forall i :: lo <= i < left ==> Le(cmp, a[i], p)
      invariant forall j :: right < j <= hi ==> Le(cmp, p, a[j])
      decreases right - left + 2
    {
      left, right := CollapseWalls(a, lo, hi, left, right, p, cmp);
      if left < right {
        ghost var t := a[..];
        Swap(a, left, right, lo, hi);
        ShuffledTrans(s, t, a[..], lo, hi);
        left, right := left + 1, right - 1;
      } else if left == right {
        left, right := left + 1, right - 1;
        break;
      }
    }
  }

  /** The two inner scans: elements already known to lie on the right side of
      the pivot stop them, not a bounds test. */
  method CollapseWalls<T(!new)>(a: array<T>, lo: nat, hi: nat, l: nat, r: nat, p: T, cmp: (T, T) -> int)
      returns (left: nat, right: nat)
    requires Mirrored(cmp) && lo < l <= r < hi < a.Length
    requires forall i :: lo <= i < l ==> Le(cmp, a[i], p)
    requires forall j :: r < j <= hi ==> Le(cmp, p, a[j])
    ensures l <= left <= r + 1 && l - 1 <= right <= r && left <= right + 1
    ensures forall i :: lo <= i < left ==> Le(cmp, a[i], p)
    ensures forall j :: right < j <= hi ==> Le(cmp, p, a[j])
    ensures Le(cmp, p, a[left]) && Le(cmp, a[right], p)
  {
    hide Mirrored;
    left, right := l, r;
    NotLess(cmp, a[r + 1], p);
    while cmp(a[left], p) < 0
      invariant l <= left <= r + 1
      invariant forall i :: lo <= i < left ==> Le(cmp, a[i], p)
      decreases r + 1 - left
    {
      NotLess(cmp, a[left], p);
      left := left + 1;
    }
    NotLess(cmp, a[left], p);
    NotLess(cmp, p, a[left - 1]);
    while cmp(p, a[right]) < 0
      invariant l - 1 <= right <= r && left <= right + 1
      invariant forall j :: right < j <= hi ==> Le(cmp, p, a[j])
      decreases right
    {
      NotLess(cmp, p, a[right]);
      right := right - 1;
    }
    NotLess(cmp, p, a[right]);
  }

  // --------------------------------------------------------- the stack bound

  datatype Part = Part(lo: nat, hi: nat) {
    function Size(): int { hi - lo + 1 }
  }

  function Pow2(n: nat): (p: nat)
    ensures p >= 1
  {
    if n == 0 then 1 else 2 * Pow2(n - 1)
  }

  lemma {:induction false} Pow2Mono(m: nat, n: nat)
    requires m <= n
    ensures Pow2(m) <= Pow2(n)
    decreases n
  {
    if m < n {
      Pow2Mono(m, n - 1);
    }
  }

  /** depth partitions are pending and one of size elements is being worked on:
      every doubling of the number of elements allows one more pending part. */
  ghost predicate WithinLog(size: int, depth: nat, total: nat) {
    size * Pow2(depth) <= total
  }

  /** Splitting a part and keeping the half no larger than the other adds a level. */
  lemma {:induction false} HalvingStaysWithinLog(whole: int, kept: int, pushed: int, depth: nat, total: nat)
    requires WithinLog(whole, depth, total)
    requires 0 <= kept <= pushed && kept + pushed <= whole
    ensures WithinLog(kept, depth + 1, total) && WithinLog(pushed, depth, total)
  {
    calc {
      kept * Pow2(depth + 1);
      (2 * kept) * Pow2(depth);
    <= { MulMono(2 * kept, whole, Pow2(depth)); }
      whole * Pow2(depth);
    }
    MulMono(pushed, whole, Pow2(depth));
  }

  lemma MulMono(x: int, y: int, k: nat)
    requires x <= y
    ensures x * k <= y * k
  {
  }

  lemma {:induction false} ShrinkingStaysWithinLog(whole: int, kept: int, depth: nat, total: nat)
    requires WithinLog(whole, depth, total) && kept <= whole
    ensures WithinLog(kept, depth, total)
  {
    MulMono(kept, whole, Pow2(depth));
  }

  lemma {:induction false} Pow2Of29()
    ensures Pow2(29) == 0x2000_0000
  {
    assert Pow2(10) == 1024;
    assert Pow2(20) == 0x10_0000;
  }

  /** A depth that passes the bound with more than MAX_THRESH + 1 elements in
      hand leaves room on the stack above the dummy slot for one more push. */
  lemma {:induction false} LogBoundFitsStack(size: int, depth: nat, total: nat)
    requires WithinLog(size, depth, total) && size > 2 * (MAX_THRESH + 1) && total <= INT_MAX
    ensures depth + 2 <= STACK_SIZE
  {
    if depth + 2 > STACK_SIZE {
      Pow2Mono(29, depth);
      Pow2Of29();
      MulMono(5, size, Pow2(depth));
    }
  }

  // ------------------------------------------------- the unfulfilled partitions

  /** parts lists the pending partitions, oldest first, with the current one last. */
  ghost predicate StackOk(parts: seq<Part>, total: nat) {
    forall k :: 0 <= k < |parts| ==>
      && parts[k].lo + MAX_THRESH <= parts[k].hi < total
      && WithinLog(parts[k].Size(), k, total)
  }

  /** The elements below b form partition number w, or are few enough to be
      left to the insertion sort (w < 0); every other partition lies above b. */
  ghost predicate Leftmost(parts: seq<Part>, b: nat, w: int) {
    && 0 < b
    && -1 <= w < |parts|
    && (if w < 0 then b <= MAX_THRESH + 1 else parts[w] == Part(0, b - 1))
    && forall k :: 0 <= k < |parts| && k != w ==> b <= parts[k].lo
  }

  /** Decreases with every partition step. */
  ghost function Weight(parts: seq<Part>): (w: nat)
    requires forall k :: 0 <= k < |parts| ==> parts[k].lo <= parts[k].hi
  {
    if parts == [] then 0
    else Weight(parts[..|parts| - 1]) + 2 * parts[|parts| - 1].Size() - 1
  }

  /** What replaces a partition once it is divided into [lo, right] and [left, hi]. */
  ghost function Divide(part: Part, left: nat, right: nat): seq<Part> {
    var l, r := Part(part.lo, right), Part(left, part.hi);
    if right - part.lo <= MAX_THRESH then
      if part.hi - left <= MAX_THRESH then [] else [r]
    else if part.hi - left <= MAX_THRESH then [l]
    else if right - part.lo > part.hi - left then [l, r]
    else [r, l]
  }

  ghost function DivideLast(parts: seq<Part>, left: nat, right: nat): seq<Part>
    requires parts != []
  {
    parts[..|parts| - 1] + Divide(parts[|parts| - 1], left, right)
  }

  lemma {:induction false} DivideKeepsStackOk(parts: seq<Part>, left: nat, right: nat, total: nat)
    requires parts != [] && StackOk(parts, total)
    requires parts[|parts| - 1].lo <= right < left <= parts[|parts| - 1].hi
    ensures StackOk(DivideLast(parts, left, right), total)
  {
    var n := |parts| - 1;
    var part := parts[n];
    var l, r := right - part.lo + 1, part.hi - left + 1;
    ShrinkingStaysWithinLog(part.Size(), l, n, total);
    ShrinkingStaysWithinLog(part.Size(), r, n, total);
    if l > r {
      HalvingStaysWithinLog(part.Size(), r, l, n, total);
    } else {
      HalvingStaysWithinLog(part.Size(), l, r, n, total);
    }
  }

  lemma {:induction false} WeightLast(parts: seq<Part>, x: Part)
    requires forall k :: 0 <= k < |parts| ==> parts[k].lo <= parts[k].hi
    requires x.lo <= x.hi
    ensures Weight(parts + [x]) == Weight(parts) + 2 * x.Size() - 1
  {
    assert (parts + [x])[..|parts|] == parts;
  }

  lemma {:induction false} DivideLightens(parts: seq<Part>, left: nat, right: nat, total: nat)
    requires parts != [] && StackOk(parts, total)
    requires parts[|parts| - 1].lo <= right < left <= parts[|parts| - 1].hi
    ensures StackOk(DivideLast(parts, left, right), total)
    ensures Weight(DivideLast(parts, left, right)) < Weight(parts)
  {
    DivideKeepsStackOk(parts, left, right, total);
    var front, x := parts[..|parts| - 1], Divide(parts[|parts| - 1], left, right);
    WeightLast(front, parts[|parts| - 1]);
    assert front + [parts[|parts| - 1]] == parts;
    if |x| == 0 {
      assert front + x == front;
    } else if |x| == 1 {
      WeightLast(front, x[0]);
      assert front + x == front + [x[0]];
    } else {
      WeightLast(front, x[0]);
      WeightLast(front + [x[0]], x[1]);
      assert front + x == front + [x[0]] + [x[1]];
    }
  }

  /** Dividing partition w moves the border b down to the new left part. */
  lemma {:induction false} DivideKeepsLeftmost(parts: seq<Part>, left: nat, right: nat, b: nat, w: int)
      returns (b': nat, w': int)
    requires parts != [] && Leftmost(parts, b, w)
    requires parts[|parts| - 1].lo <= right < left <= parts[|parts| - 1].hi
    ensures b' == if w == |parts| - 1 then right + 1 else b
    ensures Leftmost(DivideLast(parts, left, right), b', w')
  {
    var n := |parts| - 1;
    b', w' := b, w;
    if w == n {
      b' := right + 1;
      var x := Divide(parts[n], left, right);
      w' := if x != [] && x[0] == Part(0, right) then n
            else if |x| == 2 then n + 1
            else -1;
    }
  }

  /** Once the partition below b is divided at right + 1, so is the array. */
  lemma {:induction false} DivideKeepsSplit<T(!new)>(
      cmp: (T, T) -> int, s: seq<T>, t: seq<T>, b: nat, left: nat, right: nat, pivot: T)
    requires TotalPreorder(cmp) && 0 < b <= |s|
    requires SplitAt(cmp, s, b) && Shuffled(s, t, 0, b - 1)
    requires right < left <= b - 1
    requires forall i :: 0 <= i < left ==> Le(cmp, t[i], pivot)
    requires forall j :: right < j <= b - 1 ==> Le(cmp, pivot, t[j])
    ensures SplitAt(cmp, t, right + 1)
  {
    ShuffleKeepsSplit(cmp, s, t, 0, b - 1, b);
    forall i, j | 0 <= i < right + 1 <= j < |t| ensures Le(cmp, t[i], t[j]) {
      if j < b {
        assert Chain(cmp, t[i], pivot, t[j]);
      }
    }
  }

  /** What every partition step keeps: the bounds on the partitions, and a
      border b below which lie the least elements of the whole array s. */
  ghost predicate PhaseOk<T(!new)>(cmp: (T, T) -> int, s: seq<T>, parts: seq<Part>, b: nat, w: int) {
    StackOk(parts, |s|) && Leftmost(parts, b, w) && b <= |s| && SplitAt(cmp, s, b)
  }

  lemma {:induction false} PartitionStep<T(!new)>(
      cmp: (T, T) -> int, s: seq<T>, t: seq<T>, parts: seq<Part>, b: nat, w: int,
      left: nat, right: nat, pivot: T) returns (b': nat, w': int)
    requires TotalPreorder(cmp) && parts != [] && PhaseOk(cmp, s, parts, b, w)
    requires parts[|parts| - 1].lo <= right < left <= parts[|parts| - 1].hi
    requires Shuffled(s, t, parts[|parts| - 1].lo, parts[|parts| - 1].hi)
    requires forall i :: parts[|parts| - 1].lo <= i < left ==> Le(cmp, t[i], pivot)
    requires forall j :: right < j <= parts[|parts| - 1].hi ==> Le(cmp, pivot, t[j])
    ensures PhaseOk(cmp, t, DivideLast(parts, left, right), b', w')
    ensures Weight(DivideLast(parts, left, right)) < Weight(parts)
    ensures multiset(t) == multiset(s)
  {
    var last := parts[|parts| - 1];
    ShuffledWhole(s, t, last.lo, last.hi);
    if w == |parts| - 1 {
      DivideKeepsSplit(cmp, s, t, b, left, right, pivot);
    } else {
      ShuffleKeepsSplit(cmp, s, t, last.lo, last.hi, b);
    }
    b', w' := DivideKeepsLeftmost(parts, left, right, b, w);
    DivideLightens(parts, left, right, |s|);
  }

  /** The stack slots above the dummy hold all partitions but the current one. */
  ghost predicate Holds(slots: seq<Part>, top: int, parts: seq<Part>, lo: int, hi: int) {
    && 0 <= top == |parts| <= |slots|
    && (forall k :: 0 <= k < top - 1 ==> parts[k] == slots[k + 1])
    && (top > 0 ==> parts[top - 1].lo == lo && parts[top - 1].hi == hi)
  }

  /** A push happens only while there is a free slot. */
  lemma {:induction false} RoomToPush(parts: seq<Part>, left: nat, right: nat, total: nat)
    requires parts != [] && StackOk(parts, total) && total <= INT_MAX
    requires parts[|parts| - 1].lo <= right < left <= parts[|parts| - 1].hi
    requires right - parts[|parts| - 1].lo > MAX_THRESH && parts[|parts| - 1].hi - left > MAX_THRESH
    ensures |parts| + 1 <= STACK_SIZE && Pow2(|parts|) <= total
  {
    var n := |parts| - 1;
    LogBoundFitsStack(parts[n].Size(), n, total);
    MulMono(2, parts[n].Size(), Pow2(n));
  }

  /** The explicit stack.  Slot 0 is a dummy that the last pop takes off. */
  class PartStack {
    const slots: array<Part>
    var top: nat               // the first free slot
    ghost var highWater: nat   // the most partitions that were ever above the dummy

    constructor ()
      ensures Valid() && fresh(slots) && top == 1 && highWater == 0
    {
      slots := new Part[STACK_SIZE];
      top, highWater := 1, 0;
    }

    ghost predicate Valid()
      reads this
    {
      slots.Length == STACK_SIZE && top <= highWater + 1 <= STACK_SIZE
    }

    method Push(part: Part)
      requires Valid() && top < STACK_SIZE
      modifies this, slots
      ensures Valid() && top == old(top) + 1 && slots[..] == old(slots[..])[old(top) := part]
      ensures highWater == if old(top) > old(highWater) then old(top) else old(highWater)
    {
      slots[top] := part;
      if top > highWater {
        highWater := top;
      }
      top := top + 1;
    }

    method Pop() returns (part: Part)
      requires Valid() && top > 0
      modifies this`top
      ensures Valid() && top == old(top) - 1 && part == slots[top]
    {
      top := top - 1;
      part := slots[top];
    }
  }

  /** Sets up the next partition: drops the small parts and, when both are
      large, pushes the larger one. */
  method NextPart(stack: PartStack, lo: nat, hi: nat, left: nat, right: nat, ghost parts: seq<Part>, ghost total: nat)
      returns (lo': nat, hi': nat)
    requires stack.Valid() && parts != [] && Holds(stack.slots[..], stack.top, parts, lo, hi)
    requires StackOk(parts, total) && total <= INT_MAX && lo <= right < left <= hi
    modifies stack, stack.slots
    ensures stack.Valid() && Holds(stack.slots[..], stack.top, DivideLast(parts, left, right), lo', hi')
    ensures stack.highWater == old(stack.highWater) || Pow2(stack.highWater) <= total
  {
    lo', hi' := lo, hi;
    if right - lo <= MAX_THRESH {
      if hi - left <= MAX_THRESH {  // both parts are small
        var part := stack.Pop();
        lo', hi' := part.lo, part.hi;
      } else {
        lo' := left;
      }
    } else if hi - left <= MAX_THRESH {
      hi' := right;
    } else {
      RoomToPush(parts, left, right, total);
      if right - lo > hi - left {
        stack.Push(Part(lo, right));
        lo' := left;
      } else {
        stack.Push(Part(left, hi));
        hi' := right;
      }
    }
  }

  /** The quicksort phase, with the stack as it is left behind: empty, never
      having held more than log2 of the length. */
  method QuickPhase<T(!new)>(a: array<T>, cmp: (T, T) -> int) returns (stack: PartStack)
    requires TotalPreorder(cmp) && MAX_THRESH < a.Length <= INT_MAX
    modifies a
    ensures multiset(a[..]) == multiset(old(a[..]))
    ensures MinUpFront(cmp, a[..])
    ensures fresh(stack) && stack.Valid() && stack.top == 0 && Pow2(stack.highWater) <= a.Length
  {
    hide Shuffled, DivideLast;
    var lo: nat, hi: nat := 0, a.Length - 1;
    stack := new PartStack();
    ghost var parts, b: nat, w := [Part(0, a.Length - 1)], a.Length, 0;
    while 0 < stack.top
      invariant fresh(stack) && fresh(stack.slots) && stack.Valid()
      invariant Holds(stack.slots[..], stack.top, parts, lo, hi)
      invariant PhaseOk(cmp, a[..], parts, b, w)
      invariant multiset(a[..]) == multiset(old(a[..]))
      invariant Pow2(stack.highWater) <= a.Length
      decreases Weight(parts)
    {
      ghost var s, pivot: T := a[..], a[lo];
      var left, right;
      left, right, pivot := Partition(a, lo, hi, cmp);
      b, w := PartitionStep(cmp, s, a[..], parts, b, w, left, right, pivot);
      lo, hi := NextPart(stack, lo, hi, left, right, parts, a.Length);
      parts := DivideLast(parts, left, right);
    }
    SplitGivesMin(cmp, a[..], b);
  }

  // ---------------------------------------------------- insertion sort phase

  /** s with the element at run moved down to dst. */
  ghost function MoveDown<T>(s: seq<T>, dst: nat, run: nat): (t: seq<T>)
    requires dst <= run < |s|
    ensures |t| == |s|
  {
    s[..dst] + [s[run]] + s[dst..run] + s[run + 1..]
  }

  lemma {:induction false} MoveDownKeepsElements<T>(s: seq<T>, dst: nat, run: nat)
    requires dst <= run < |s|
    ensures multiset(MoveDown(s, dst, run)) == multiset(s)
  {
    assert s == s[..dst] + s[dst..run] + [s[run]] + s[run + 1..];
  }

  lemma MoveDownNowhere<T>(s: seq<T>, run: nat)
    requires run < |s|
    ensures MoveDown(s, run, run) == s
  {
  }

  lemma {:induction false} MoveDownKeepsMin<T(!new)>(cmp: (T, T) -> int, s: seq<T>, dst: nat, run: nat)
    requires 0 < dst <= run < |s| && IsMinAt(cmp, s, 0)
    ensures IsMinAt(cmp, MoveDown(s, dst, run), 0)
  {
    var t := MoveDown(s, dst, run);
    forall j | 0 <= j < |t| ensures Le(cmp, t[0], t[j]) {
      assert t[j] == s[if j == dst then run else if dst < j <= run then j - 1 else j];
    }
  }

  /** Inserting after the last element not above it keeps a sorted prefix sorted. */
  lemma {:induction false} MoveDownSorts<T(!new)>(cmp: (T, T) -> int, s: seq<T>, dst: nat, run: nat)
    requires TotalPreorder(cmp) && 0 < dst <= run < |s|
    requires Sorted(cmp, s[..run]) && Le(cmp, s[dst - 1], s[run])
    requires forall k :: dst <= k < run ==> Le(cmp, s[run], s[k])
    ensures Sorted(cmp, MoveDown(s, dst, run)[..run + 1])
  {
    var t := MoveDown(s, dst, run)[..run + 1];
    forall i, j | 0 <= i < j < |t| ensures Le(cmp, t[i], t[j]) {
      var p := s[..run];
      if j == dst {
        assert i < dst - 1 ==> Le(cmp, p[i], p[dst - 1]);
        assert Chain(cmp, p[i], s[dst - 1], s[run]);
      } else if i == dst {
        assert t[j] == s[j - 1];
      } else {
        var i', j' := if i < dst then i else i - 1, if j < dst then j else j - 1;
        assert t[i] == p[i'] && t[j] == p[j'];
      }
    }
  }

  lemma MovedDown<T>(s: seq<T>, t: seq<T>, dst: nat, run: nat)
    requires dst <= run < |s| && |t| == |s|
    requires t[dst] == s[run] && forall k :: dst < k <= run ==> t[k] == s[k - 1]
    requires forall k :: 0 <= k < dst || run < k < |s| ==> t[k] == s[k]
    ensures t == MoveDown(s, dst, run)
  {
  }

  /** The shifting loops at the end of the insertion sort, one element wide. */
  method Rotate<T>(a: array<T>, dst: nat, run: nat)
    requires dst <= run < a.Length
    modifies a
    ensures a[..] == MoveDown(old(a[..]), dst, run)
  {
    var c := a[run];
    var hi := run;
    var lo := run - 1;
    while lo >= dst
      invariant lo == hi - 1 && dst <= hi <= run
      invariant forall k :: 0 <= k < hi || run < k < a.Length ==> a[k] == old(a[k])
      invariant forall k :: hi < k <= run ==> a[k] == old(a[k - 1])
      decreases lo
    {
      a[hi] := a[lo];
      hi := lo;
      lo := lo - 1;
    }
    a[hi] := c;
    MovedDown(old(a[..]), a[..], dst, run);
  }

  /** Selects the least of the first MAX_THRESH + 1 elements as the sentinel. */
  method PlaceSentinel<T(!new)>(a: array<T>, cmp: (T, T) -> int)
    requires TotalPreorder(cmp) && 0 < a.Length && MinUpFront(cmp, a[..])
    modifies a
    ensures multiset(a[..]) == multiset(old(a[..]))
    ensures IsMinAt(cmp, a[..], 0)
  {
    var end := a.Length - 1;
    var thresh := if end < MAX_THRESH then end else MAX_THRESH;
    var tmp, run := 0, 1;
    while run <= thresh
      invariant 0 <= tmp < run <= thresh + 1
      invariant forall k :: 0 <= k < run ==> Le(cmp, a[tmp], a[k])
    {
      if cmp(a[run], a[tmp]) < 0 {
        forall k | 0 <= k < run ensures Le(cmp, a[run], a[k]) {
          assert Chain(cmp, a[run], a[tmp], a[k]);
        }
        tmp := run;
      }
      run := run + 1;
    }
    ghost var m: nat :| m <= MAX_THRESH && IsMinAt(cmp, a[..], m);
    ghost var s := a[..];
    forall j | 0 <= j < |s| ensures Le(cmp, s[tmp], s[j]) {
      assert Chain(cmp, s[tmp], s[m], s[j]);
    }
    if tmp != 0 {
      Swap(a, tmp, 0, 0, end);
      ShuffledWhole(s, a[..], 0, end);
      forall j | 0 <= j < |a[..]| ensures Le(cmp, a[..][0], a[..][j]) {
        var j' := UnshuffledIndex(s, a[..], 0, end, j);
      }
    }
  }

  /** Where the element at run belongs.  This scan tests no bound: the
      sentinel at index 0 stops it. */
  method InsertionPoint<T(!new)>(a: array<T>, run: nat, cmp: (T, T) -> int) returns (tmp: nat)
    requires TotalPreorder(cmp) && 0 < run < a.Length && IsMinAt(cmp, a[..], 0)
    ensures 0 < tmp <= run && Le(cmp, a[tmp - 1], a[run])
    ensures forall k :: tmp <= k < run ==> Le(cmp, a[run], a[k])
  {
    assert Le(cmp, a[..][0], a[..][run]);
    tmp := run - 1;
    while cmp(a[run], a[tmp]) < 0
      invariant tmp < run
      invariant forall k :: tmp < k < run ==> Le(cmp, a[run], a[k])
      decreases tmp
    {
      tmp := tmp - 1;
    }
    tmp := tmp + 1;
  }

  /** One step of the insertion sort. */
  method Insert<T(!new)>(a: array<T>, run: nat, cmp: (T, T) -> int)
    requires TotalPreorder(cmp) && 0 < run < a.Length && IsMinAt(cmp, a[..], 0)
    requires Sorted(cmp, a[..run])
    modifies a
    ensures multiset(a[..]) == multiset(old(a[..]))
    ensures IsMinAt(cmp, a[..], 0) && Sorted(cmp, a[..run + 1])
  {
    hide MoveDown, Sorted;
    ghost var s := a[..];
    var tmp := InsertionPoint(a, run, cmp);
    MoveDownSorts(cmp, s, tmp, run);
    MoveDownKeepsElements(s, tmp, run);
    if tmp != run {
      Rotate(a, tmp, run);
    } else {
      MoveDownNowhere(s, run);
    }
    MoveDownKeepsMin(cmp, s, tmp, run);
  }

  method InsertionPhase<T(!new)>(a: array<T>, cmp: (T, T) -> int)
    requires TotalPreorder(cmp) && 0 < a.Length && MinUpFront(cmp, a[..])
    modifies a
    ensures multiset(a[..]) == multiset(old(a[..]))
    ensures Sorted(cmp, a[..])
  {
    PlaceSentinel(a, cmp);
    var end := a.Length - 1;
    var run := 2;
    while run <= end
      invariant 2 <= run && multiset(a[..]) == multiset(old(a[..]))
      invariant IsMinAt(cmp, a[..], 0)
      invariant Sorted(cmp, a[..if run <= a.Length then run else a.Length])
      decreases end - run
    {
      Insert(a, run, cmp);
      run := run + 1;
    }
    assert a[..a.Length] == a[..];
  }

  /** qsort: a sorted rearrangement of the input, for any comparison that is a
      total preorder and any number of elements an int can count. */
  method Qsort<T(!new)>(a: array<T>, cmp: (T, T) -> int) returns (ghost stack: PartStack?)
    requires TotalPreorder(cmp) && a.Length <= INT_MAX
    modifies a
    ensures Sorted(cmp, a[..])
    ensures multiset(a[..]) == multiset(old(a[..]))
    ensures stack != null <==> a.Length > MAX_THRESH
    ensures stack != null ==> fresh(stack) && stack.Valid() && stack.top == 0 && Pow2(stack.highWater) <= a.Length
  {
    stack := null;
    if a.Length > MAX_THRESH {
      stack := QuickPhase(a, cmp);
    } else if a.Length > 0 {
      assert SplitAt(cmp, a[..], a.Length);
      SplitGivesMin(cmp, a[..], a.Length);
    }
    if a.Length > 0 {  // with no elements every loop of the second phase is empty
      InsertionPhase(a, cmp);
    }
  }
}
