/** The explicit-stack quicksort of ip2net/qsort.c.

    Pointers into the buffer become element indices; a three-way comparator is any
    total preorder.  The quicksort phase only sorts down to runs of MAX_THRESH + 1
    slots, the insertion phase then scans backwards without a lower bound check.
 */
module Quicksort {
  import opened Bits

  const MAX_THRESH := 4
  // CHAR_BIT * sizeof(size_t) on a 64-bit target
  const STACK_SIZE := 64
  const SIZE_T_LIMIT := 0x1_0000_0000_0000_0000

  datatype StackNode = StackNode(lo: int, hi: int)

  // PUSH (NULL, NULL): the bottom entry, whose bounds are never used
  const NULL_NODE := StackNode(-1, -1)

  // ---------- comparators ----------

  ghost predicate Le<T>(cmp: (T, T) -> int, x: T, y: T) {
    cmp(x, y) <= 0
  }

  ghost predicate TotalPreorder<T(!new)>(cmp: (T, T) -> int) {
    && (forall x, y :: cmp(x, y) > 0 <==> cmp(y, x) < 0)
    && (forall x, y, z :: Le(cmp, x, y) && Le(cmp, y, z) ==> Le(cmp, x, z))
  }

  ghost predicate Sorted<T>(s: seq<T>, cmp: (T, T) -> int) {
    forall i, j :: 0 <= i < j < |s| ==> Le(cmp, s[i], s[j])
  }

  /** Elements more than MAX_THRESH slots apart are already in order. */
  ghost predicate NearlySorted<T>(s: seq<T>, cmp: (T, T) -> int) {
    forall i, j :: 0 <= i && i + MAX_THRESH < j < |s| ==> Le(cmp, s[i], s[j])
  }

  /** Everything before `c` is at most everything from `c` on. */
  ghost predicate IsCut<T>(s: seq<T>, cmp: (T, T) -> int, c: int) {
    forall i, j :: 0 <= i < c <= j < |s| ==> Le(cmp, s[i], s[j])
  }

  // ---------- pending ranges ----------

  function Width(r: StackNode): int {
    r.hi - r.lo + 1
  }

  ghost predicate Inside(r: StackNode, i: int, j: int) {
    r.lo <= i && j <= r.hi
  }

  ghost predicate Apart(r: StackNode, q: StackNode) {
    r.hi < q.lo || q.hi < r.lo
  }

  ghost predicate RangeOk(n: nat, r: StackNode) {
    0 <= r.lo && r.hi < n && MAX_THRESH <= r.hi - r.lo
  }

  /** The ranges still to be partitioned (the stack without its NULL bottom, then the
      current range) are disjoint, lie between cuts, and hold every pair that is
      possibly out of order by more than MAX_THRESH slots. */
  ghost predicate Pending<T>(s: seq<T>, cmp: (T, T) -> int, p: seq<StackNode>) {
    && (forall k :: 0 <= k < |p| ==> RangeOk(|s|, p[k]) && IsCut(s, cmp, p[k].lo) && IsCut(s, cmp, p[k].hi + 1))
    && (forall k, m :: 0 <= k < m < |p| ==> Apart(p[k], p[m]))
    && (forall i, j :: 0 <= i && i + MAX_THRESH < j < |s| && !Le(cmp, s[i], s[j]) ==>
         exists k :: 0 <= k < |p| && Inside(p[k], i, j))
  }

  /** Entry k was pushed when at most n / 2^k elements were under consideration. */
  ghost predicate Halving(n: nat, p: seq<StackNode>) {
    forall k :: 0 <= k < |p| ==> Width(p[k]) * Pow2(k) <= n
  }

  ghost function TotalSpan(p: seq<StackNode>): int {
    if p == [] then 0 else TotalSpan(p[..|p| - 1]) + (p[|p| - 1].hi - p[|p| - 1].lo)
  }

  lemma {:induction false} SpanNonNegative(n: nat, p: seq<StackNode>)
    requires forall k :: 0 <= k < |p| ==> RangeOk(n, p[k])
    ensures 0 <= TotalSpan(p)
  {
    if p != [] {
      SpanNonNegative(n, p[..|p| - 1]);
    }
  }

  lemma SpanAppend(p: seq<StackNode>, r: StackNode)
    ensures TotalSpan(p + [r]) == TotalSpan(p) + (r.hi - r.lo)
  {
    assert (p + [r])[..|p|] == p;
  }

  /** Halving bounds the number of pending ranges, whatever the array size. */
  lemma StackFits(n: nat, p: seq<StackNode>)
    requires n < SIZE_T_LIMIT
    requires Halving(n, p)
    requires forall k :: 0 <= k < |p| ==> RangeOk(n, p[k])
    ensures p != [] ==> (MAX_THRESH + 1) * Pow2(|p| - 1) <= n
    ensures |p| <= 62
  {
    if p != [] {
      var k := |p| - 1;
      MulMonotone(MAX_THRESH + 1, Width(p[k]), Pow2(k));
      assert Pow2(62) == 0x4000_0000_0000_0000 by { Pow2At64(); Pow2Add(62, 2); }
      if 62 <= k {
        Pow2Monotone(62, k);
      }
    }
  }

  /** A pushed range and the smaller one kept: both obey the halving bound. */
  lemma HalvingPush(n: nat, p: seq<StackNode>, big: StackNode, small: StackNode)
    requires p != [] && Halving(n, p)
    requires 0 <= Width(small) <= Width(big)
    requires Width(big) + Width(small) <= Width(p[|p| - 1])
    ensures Halving(n, p[..|p| - 1] + [big, small])
  {
    var d := |p| - 1;
    var w, f := Width(p[d]), Pow2(d);
    MulMonotone(Width(big), w, f);
    MulMonotone(2 * Width(small), w, f);
    assert Width(small) * Pow2(d + 1) == 2 * Width(small) * f;
    var q := p[..d] + [big, small];
    forall k | 0 <= k < |q|
      ensures Width(q[k]) * Pow2(k) <= n
    {
      if k < d {
        assert Width(p[k]) * Pow2(k) <= n;
      }
    }
  }

  lemma HalvingShrink(n: nat, p: seq<StackNode>, r: StackNode)
    requires p != [] && Halving(n, p)
    requires Width(r) <= Width(p[|p| - 1])
    ensures Halving(n, p[..|p| - 1] + [r])
  {
    var d := |p| - 1;
    MulMonotone(Width(r), Width(p[d]), Pow2(d));
  }

  // ---------- one partition step, on values ----------

  /** `t` is `s` with the slots of `r` permuted. */
  ghost predicate PermutedInside<T>(s: seq<T>, t: seq<T>, r: StackNode)
    requires 0 <= r.lo <= r.hi + 1 <= |s|
  {
    && |t| == |s|
    && (forall i :: 0 <= i < |s| && !(r.lo <= i <= r.hi) ==> t[i] == s[i])
    && multiset(t[r.lo..r.hi + 1]) == multiset(s[r.lo..r.hi + 1])
  }

  lemma PermutedOrigin<T>(s: seq<T>, t: seq<T>, r: StackNode, i: int) returns (k: int)
    requires 0 <= r.lo <= r.hi + 1 <= |s|
    requires PermutedInside(s, t, r)
    requires 0 <= i < |s|
    ensures 0 <= k < |s| && t[i] == s[k]
    ensures if r.lo <= i <= r.hi then r.lo <= k <= r.hi else k == i
  {
    if r.lo <= i <= r.hi {
      assert t[i] == t[r.lo..r.hi + 1][i - r.lo];
      assert t[i] in multiset(t[r.lo..r.hi + 1]);
      assert t[i] in s[r.lo..r.hi + 1];
      var m :| 0 <= m < |s[r.lo..r.hi + 1]| && s[r.lo..r.hi + 1][m] == t[i];
      k := m + r.lo;
    } else {
      k := i;
    }
  }

  /** Permuting inside a range keeps every cut that is not strictly inside it. */
  lemma CutSurvives<T>(s: seq<T>, t: seq<T>, cmp: (T, T) -> int, r: StackNode, c: int)
    requires 0 <= r.lo <= r.hi + 1 <= |s|
    requires PermutedInside(s, t, r)
    requires IsCut(s, cmp, c)
    requires c <= r.lo || r.hi < c
    ensures IsCut(t, cmp, c)
  {
    forall i, j | 0 <= i < c <= j < |t|
      ensures Le(cmp, t[i], t[j])
    {
      var ki := PermutedOrigin(s, t, r, i);
      var kj := PermutedOrigin(s, t, r, j);
      assert ki < c <= kj;
    }
  }

  ghost predicate SplitInside<T>(t: seq<T>, cmp: (T, T) -> int, r: StackNode, c: int)
    requires 0 <= r.lo <= r.hi + 1 <= |t|
  {
    forall i, j :: r.lo <= i < c <= j <= r.hi ==> Le(cmp, t[i], t[j])
  }

  lemma CutInside<T>(t: seq<T>, cmp: (T, T) -> int, r: StackNode, c: int)
    requires 0 <= r.lo <= r.hi + 1 <= |t|
    requires r.lo <= c <= r.hi + 1
    requires IsCut(t, cmp, r.lo) && IsCut(t, cmp, r.hi + 1)
    requires SplitInside(t, cmp, r, c)
    ensures IsCut(t, cmp, c)
  {
  }

  /** What the wall-collapsing pass leaves behind in range `r`. */
  ghost predicate Partitioned<T>(s: seq<T>, t: seq<T>, cmp: (T, T) -> int, r: StackNode, left: int, right: int)
    requires 0 <= r.lo <= r.hi + 1 <= |s|
  {
    && PermutedInside(s, t, r)
    && r.lo <= right < left <= right + 2 && left <= r.hi
    && SplitInside(t, cmp, r, right + 1)
    && SplitInside(t, cmp, r, left)
  }

  /** The two halves of a partitioned range that may be kept as pending. */
  ghost predicate KeptHalves(q: seq<StackNode>, a: StackNode, b: StackNode) {
    && (q == [] || q == [a] || q == [b] || q == [a, b] || q == [b, a])
    && (a !in q ==> a.hi - a.lo <= MAX_THRESH)
    && (b !in q ==> b.hi - b.lo <= MAX_THRESH)
    && (forall k :: 0 <= k < |q| ==> MAX_THRESH < q[k].hi - q[k].lo)
  }

  /** The step of the outer loop: replacing the current range by those of its halves that
      are wider than the threshold keeps the pending invariant. */
  lemma PendingStep<T>(s: seq<T>, t: seq<T>, cmp: (T, T) -> int, p: seq<StackNode>,
                       left: int, right: int, q: seq<StackNode>)
    requires p != [] && Pending(s, cmp, p)
    requires Partitioned(s, t, cmp, p[|p| - 1], left, right)
    requires var r := p[|p| - 1]; KeptHalves(q, StackNode(r.lo, right), StackNode(left, r.hi))
    ensures Pending(t, cmp, p[..|p| - 1] + q)
  {
    var d := |p| - 1;
    var r := p[d];
    var a, b := StackNode(r.lo, right), StackNode(left, r.hi);
    var p' := p[..d] + q;
    CutSurvives(s, t, cmp, r, r.lo);
    CutSurvives(s, t, cmp, r, r.hi + 1);
    CutInside(t, cmp, r, right + 1);
    CutInside(t, cmp, r, left);
    forall k | 0 <= k < |p'|
      ensures RangeOk(|t|, p'[k]) && IsCut(t, cmp, p'[k].lo) && IsCut(t, cmp, p'[k].hi + 1)
    {
      if k < d {
        assert Apart(p[k], p[d]);
        CutSurvives(s, t, cmp, r, p[k].lo);
        CutSurvives(s, t, cmp, r, p[k].hi + 1);
      } else {
        assert p'[k] == q[k - d];
      }
    }
    HalvesApart(p, a, b, q);
    forall i, j | 0 <= i && i + MAX_THRESH < j < |t| && !Le(cmp, t[i], t[j])
      ensures exists k :: 0 <= k < |p'| && Inside(p'[k], i, j)
    {
      UnorderedPairStays(s, t, cmp, p, left, right, i, j);
      HalfKept(p, a, b, q, i, j);
    }
  }

  lemma HalvesApart(p: seq<StackNode>, a: StackNode, b: StackNode, q: seq<StackNode>)
    requires p != [] && KeptHalves(q, a, b)
    requires a.lo == p[|p| - 1].lo && b.hi == p[|p| - 1].hi && a.lo <= a.hi < b.lo <= b.hi
    requires forall k, m :: 0 <= k < m < |p| ==> Apart(p[k], p[m])
    ensures var p' := p[..|p| - 1] + q; forall k, m :: 0 <= k < m < |p'| ==> Apart(p'[k], p'[m])
  {
    var d := |p| - 1;
    var p' := p[..d] + q;
    forall k, m | 0 <= k < m < |p'|
      ensures Apart(p'[k], p'[m])
    {
      if m < d {
        assert Apart(p[k], p[m]);
      } else if k < d {
        assert Apart(p[k], p[d]);
        assert p'[m] == q[m - d];
      } else {
        assert p'[k] == q[k - d] && p'[m] == q[m - d];
      }
    }
  }

  lemma HalfKept(p: seq<StackNode>, a: StackNode, b: StackNode, q: seq<StackNode>, i: int, j: int)
    requires p != [] && KeptHalves(q, a, b) && i + MAX_THRESH < j
    requires Inside(a, i, j) || Inside(b, i, j) || exists k :: 0 <= k < |p| - 1 && Inside(p[k], i, j)
    ensures var p' := p[..|p| - 1] + q; exists k :: 0 <= k < |p'| && Inside(p'[k], i, j)
  {
    var d := |p| - 1;
    var p' := p[..d] + q;
    if Inside(a, i, j) {
      var k :| 0 <= k < |q| && q[k] == a;
      assert p'[d + k] == a;
    } else if Inside(b, i, j) {
      var k :| 0 <= k < |q| && q[k] == b;
      assert p'[d + k] == b;
    } else {
      var k :| 0 <= k < d && Inside(p[k], i, j);
      assert p'[k] == p[k];
    }
  }

  lemma UnorderedPairStays<T>(s: seq<T>, t: seq<T>, cmp: (T, T) -> int, p: seq<StackNode>,
                              left: int, right: int, i: int, j: int)
    requires p != [] && Pending(s, cmp, p)
    requires Partitioned(s, t, cmp, p[|p| - 1], left, right)
    requires IsCut(t, cmp, p[|p| - 1].lo) && IsCut(t, cmp, p[|p| - 1].hi + 1)
    requires IsCut(t, cmp, left) && IsCut(t, cmp, right + 1)
    requires 0 <= i && i + MAX_THRESH < j < |t| && !Le(cmp, t[i], t[j])
    ensures Inside(StackNode(p[|p| - 1].lo, right), i, j) || Inside(StackNode(left, p[|p| - 1].hi), i, j)
            || exists k :: 0 <= k < |p| - 1 && Inside(p[k], i, j)
  {
    var d := |p| - 1;
    var r := p[d];
    NotAcross(t, cmp, r.lo, i, j);
    NotAcross(t, cmp, r.hi + 1, i, j);
    NotAcross(t, cmp, left, i, j);
    NotAcross(t, cmp, right + 1, i, j);
    if j < r.lo || r.hi < i {
      assert t[i] == s[i] && t[j] == s[j];
      var k :| 0 <= k < |p| && Inside(p[k], i, j);
      assert k < d;
    }
  }

  lemma NotAcross<T>(t: seq<T>, cmp: (T, T) -> int, c: int, i: int, j: int)
    requires IsCut(t, cmp, c) && 0 <= i < |t| && 0 <= j < |t| && !Le(cmp, t[i], t[j])
    ensures !(i < c <= j)
  {
  }

  /** Everything the outer loop relies on, from one partitioned range to the next. */
  lemma OuterStep<T>(s: seq<T>, t: seq<T>, cmp: (T, T) -> int, p: seq<StackNode>,
                     left: int, right: int, q: seq<StackNode>)
    requires |s| < SIZE_T_LIMIT
    requires p != [] && Pending(s, cmp, p) && Halving(|s|, p)
    requires Partitioned(s, t, cmp, p[|p| - 1], left, right)
    requires var r := p[|p| - 1]; KeptHalves(q, StackNode(r.lo, right), StackNode(left, r.hi))
    requires |q| == 2 ==> Width(q[1]) <= Width(q[0])
    ensures Pending(t, cmp, p[..|p| - 1] + q)
    ensures Halving(|s|, p[..|p| - 1] + q)
    ensures |p[..|p| - 1] + q| <= 62
    ensures 0 <= TotalSpan(p[..|p| - 1] + q) < TotalSpan(p)
  {
    var rest, r := p[..|p| - 1], p[|p| - 1];
    assert RangeOk(|s|, r);
    PendingStep(s, t, cmp, p, left, right, q);
    if |q| == 0 {
      assert rest + q == rest;
    } else if |q| == 1 {
      assert rest + q == rest + [q[0]];
      HalvingShrink(|s|, p, q[0]);
      SpanAppend(rest, q[0]);
    } else {
      assert rest + q == rest + [q[0], q[1]];
      HalvingPush(|s|, p, q[0], q[1]);
      SpanTwo(rest, q[0], q[1]);
    }
    SpanNonNegative(|s|, rest + q);
    StackFits(|s|, rest + q);
  }

  lemma PendingStart<T>(s: seq<T>, cmp: (T, T) -> int)
    requires MAX_THRESH < |s|
    ensures Pending(s, cmp, [StackNode(0, |s| - 1)]) && Halving(|s|, [StackNode(0, |s| - 1)])
  {
    var p := [StackNode(0, |s| - 1)];
    assert forall i, j :: 0 <= i < j < |s| ==> Inside(p[0], i, j);
  }

  lemma PendingDone<T>(s: seq<T>, cmp: (T, T) -> int)
    requires Pending(s, cmp, [])
    ensures NearlySorted(s, cmp)
  {
  }

  // ---------- the code ----------

  /** SWAP (a, b, size) on two whole elements. */
  method Swap<T>(a: array<T>, i: int, j: int)
    requires 0 <= i < a.Length && 0 <= j < a.Length
    modifies a
    ensures a[..] == old(a[..])[i := old(a[j])][j := old(a[i])]
    ensures multiset(a[..]) == multiset(old(a[..]))
  {
    a[i], a[j] := a[j], a[i];
  }

  ghost predicate SwappedInside<T>(s: seq<T>, t: seq<T>, lo: int, hi: int)
    requires 0 <= lo <= hi + 1 <= |s|
  {
    PermutedInside(s, t, StackNode(lo, hi))
  }

  lemma SwapStaysInside<T>(s: seq<T>, u: seq<T>, t: seq<T>, lo: int, hi: int, i: int, j: int)
    requires 0 <= lo <= i <= hi < |s| && lo <= j <= hi
    requires SwappedInside(s, u, lo, hi)
    requires t == u[i := u[j]][j := u[i]]
    ensures SwappedInside(s, t, lo, hi)
  {
    SwapPermutes(u[lo..hi + 1], t[lo..hi + 1], i - lo, j - lo);
  }

  lemma SwapPermutes<T>(x: seq<T>, y: seq<T>, i: nat, j: nat)
    requires i < |x| && j < |x|
    requires y == x[i := x[j]][j := x[i]]
    ensures multiset(y) == multiset(x)
  {
  }

  method SwapInside<T>(a: array<T>, lo: int, hi: int, i: int, j: int)
    requires 0 <= lo <= i <= hi < a.Length && lo <= j <= hi
    modifies a
    ensures a[i] == old(a[j]) && a[j] == old(a[i])
    ensures forall k :: 0 <= k < a.Length && k != i && k != j ==> a[k] == old(a[k])
    ensures SwappedInside(old(a[..]), a[..], lo, hi)
  {
    Swap(a, i, j);
    SwapStaysInside(old(a[..]), old(a[..]), a[..], lo, hi, i, j);
  }

  lemma Transitive<T(!new)>(cmp: (T, T) -> int, x: T, y: T, z: T)
    requires TotalPreorder(cmp)
    requires Le(cmp, x, y) && Le(cmp, y, z)
    ensures Le(cmp, x, z)
  {
  }

  /** Order the elements at lo, mid and hi. */
  method MedianOfThree<T(!new)>(a: array<T>, cmp: (T, T) -> int, lo: int, hi: int, mid: int)
    requires TotalPreorder(cmp)
    requires 0 <= lo < mid < hi < a.Length
    modifies a
    ensures SwappedInside(old(a[..]), a[..], lo, hi)
    ensures Le(cmp, a[lo], a[mid]) && Le(cmp, a[mid], a[hi])
  {
    ghost var s := a[..];
    if cmp(a[mid], a[lo]) < 0 {
      SwapInside(a, lo, hi, mid, lo);
    }
    ghost var t := a[..];
    assert Le(cmp, t[lo], t[mid]);
    if cmp(a[hi], a[mid]) < 0 {
      SwapInside(a, lo, hi, mid, hi);
      ghost var u := a[..];
      InsideTransitive(s, t, u, StackNode(lo, hi));
      assert Le(cmp, u[mid], u[hi]) && Le(cmp, u[lo], u[hi]);
      if cmp(a[mid], a[lo]) < 0 {
        SwapInside(a, lo, hi, mid, lo);
        InsideTransitive(s, u, a[..], StackNode(lo, hi));
      }
    }
  }

  /** while (cmp(left_ptr, mid) < 0) left_ptr += size: stopped by `stop` at the latest. */
  method ScanUp<T(!new)>(a: array<T>, cmp: (T, T) -> int, left0: int, mid: int, stop: int) returns (left: int)
    requires TotalPreorder(cmp)
    requires 0 <= left0 <= stop < a.Length && 0 <= mid < a.Length
    requires Le(cmp, a[mid], a[stop])
    ensures left0 <= left <= stop && Le(cmp, a[mid], a[left])
    ensures forall i :: left0 <= i < left ==> Le(cmp, a[i], a[mid])
  {
    left := left0;
    while cmp(a[left], a[mid]) < 0
      invariant left0 <= left <= stop
      invariant forall i :: left0 <= i < left ==> Le(cmp, a[i], a[mid])
      decreases stop - left
    {
      assert left != stop;
      left := left + 1;
    }
  }

  /** while (cmp(mid, right_ptr) < 0) right_ptr -= size: stopped by `stop` at the latest. */
  method ScanDown<T(!new)>(a: array<T>, cmp: (T, T) -> int, right0: int, mid: int, stop: int) returns (right: int)
    requires TotalPreorder(cmp)
    requires 0 <= stop <= right0 < a.Length && 0 <= mid < a.Length
    requires Le(cmp, a[stop], a[mid])
    ensures stop <= right <= right0 && Le(cmp, a[right], a[mid])
    ensures forall j :: right < j <= right0 ==> Le(cmp, a[mid], a[j])
  {
    right := right0;
    while cmp(a[mid], a[right]) < 0
      invariant stop <= right <= right0
      invariant forall j :: right < j <= right0 ==> Le(cmp, a[mid], a[j])
      decreases right - stop
    {
      assert right != stop;
      right := right - 1;
    }
  }

  /** The ``collapse the walls'' section: on return [lo..right] and [left..hi] hold elements on
      either side of the pivot, and both walls are still inside the range. */
  method CollapseWalls<T(!new)>(a: array<T>, cmp: (T, T) -> int, lo: int, hi: int, mid0: int)
    returns (left: int, right: int)
    requires TotalPreorder(cmp)
    requires 0 <= lo < mid0 < hi < a.Length && lo + 3 <= hi
    requires Le(cmp, a[lo], a[mid0]) && Le(cmp, a[mid0], a[hi])
    modifies a
    ensures Partitioned(old(a[..]), a[..], cmp, StackNode(lo, hi), left, right)
  {
    ghost var s := a[..];
    ghost var pivot := a[mid0];
    var mid := mid0;
    left := lo + 1;
    right := hi - 1;
    var again := true;
    while again
      invariant lo <= mid <= hi && a[mid] == pivot
      invariant lo < left <= hi && lo <= right < hi
      invariant again ==> left <= right
      invariant !again ==> right < left <= right + 2
      invariant SwappedInside(s, a[..], lo, hi)
      invariant forall i :: lo <= i < left ==> Le(cmp, a[i], pivot)
      invariant forall j :: right < j <= hi ==> Le(cmp, pivot, a[j])
      decreases right - left + 2, again
    {
      left := ScanUp(a, cmp, left, mid, right + 1);
      right := ScanDown(a, cmp, right, mid, left - 1);
      if left < right {
        ghost var u := a[..];
        Swap(a, left, right);
        SwapStaysInside(s, u, a[..], lo, hi, left, right);
        if mid == left {
          mid := right;
        } else if mid == right {
          mid := left;
        }
        left := left + 1;
        right := right - 1;
        again := left <= right;
      } else if left == right {
        left := left + 1;
        right := right - 1;
        again := false;
      } else {
        again := false;
      }
    }
  }

  /** The body of the outer loop up to the threshold tests. */
  method PartitionRange<T(!new)>(a: array<T>, cmp: (T, T) -> int, lo: int, hi: int) returns (left: int, right: int)
    requires TotalPreorder(cmp)
    requires RangeOk(a.Length, StackNode(lo, hi))
    modifies a
    ensures Partitioned(old(a[..]), a[..], cmp, StackNode(lo, hi), left, right)
  {
    var mid := lo + (hi - lo) / 2;
    MedianOfThree(a, cmp, lo, hi, mid);
    ghost var m := a[..];
    left, right := CollapseWalls(a, cmp, lo, hi, mid);
    InsideTransitive(old(a[..]), m, a[..], StackNode(lo, hi));
  }

  /** The stack array and the current range spell out the pending ranges. */
  ghost predicate OnStack(stack: array<StackNode>, top: nat, lo: int, hi: int, p: seq<StackNode>)
    reads stack
  {
    && stack.Length == STACK_SIZE
    && top == |p| <= 62
    && (forall k :: 0 < k < top ==> stack[k] == p[k - 1])
    && (0 < top ==> p[top - 1] == StackNode(lo, hi))
  }

  /** The threshold tests: drop, keep or push the two halves of the current range. */
  method NextRange(stack: array<StackNode>, top: nat, lo: int, hi: int, left: int, right: int,
                   ghost p: seq<StackNode>)
    returns (top': nat, lo': int, hi': int, ghost q: seq<StackNode>)
    requires 0 < top && OnStack(stack, top, lo, hi, p)
    requires lo <= right < left <= hi
    modifies stack
    ensures KeptHalves(q, StackNode(lo, right), StackNode(left, hi))
    ensures |q| == 2 ==> Width(q[1]) <= Width(q[0])
    ensures |p[..top - 1] + q| <= 62 ==> OnStack(stack, top', lo', hi', p[..top - 1] + q)
  {
    top', lo', hi' := top, lo, hi;
    if right - lo <= MAX_THRESH {
      if hi - left <= MAX_THRESH {
        q := [];
        top' := top' - 1;
        lo', hi' := stack[top'].lo, stack[top'].hi;
      } else {
        lo' := left;
        q := [StackNode(lo', hi)];
      }
    } else if hi - left <= MAX_THRESH {
      hi' := right;
      q := [StackNode(lo, hi')];
    } else if right - lo > hi - left {
      stack[top'] := StackNode(lo, right);
      top' := top' + 1;
      lo' := left;
      q := [StackNode(lo, right), StackNode(lo', hi)];
    } else {
      stack[top'] := StackNode(left, hi);
      top' := top' + 1;
      hi' := right;
      q := [StackNode(left, hi), StackNode(lo, hi')];
    }
  }

  /** What the outer loop keeps: the stack spells out the pending ranges of `a`, a permutation of `s0`. */
  ghost predicate OuterLoop<T>(s0: seq<T>, s: seq<T>, cmp: (T, T) -> int, p: seq<StackNode>) {
    && multiset(s) == multiset(s0)
    && Pending(s, cmp, p) && Halving(|s|, p)
  }

  lemma OuterLoopStep<T>(s0: seq<T>, s: seq<T>, t: seq<T>, cmp: (T, T) -> int, p: seq<StackNode>,
                         left: int, right: int, q: seq<StackNode>)
    requires |s| < SIZE_T_LIMIT
    requires p != [] && OuterLoop(s0, s, cmp, p)
    requires RangeOk(|s|, p[|p| - 1])
    requires Partitioned(s, t, cmp, p[|p| - 1], left, right)
    requires var r := p[|p| - 1]; KeptHalves(q, StackNode(r.lo, right), StackNode(left, r.hi))
    requires |q| == 2 ==> Width(q[1]) <= Width(q[0])
    ensures OuterLoop(s0, t, cmp, p[..|p| - 1] + q)
    ensures |p[..|p| - 1] + q| <= 62
    ensures 0 <= TotalSpan(p[..|p| - 1] + q) < TotalSpan(p)
  {
    WholePermuted(s, t, p[|p| - 1]);
    OuterStep(s, t, cmp, p, left, right, q);
  }

  /** One round of the outer loop: partition the current range, then drop, keep or push its halves. */
  method OuterRound<T(!new)>(a: array<T>, cmp: (T, T) -> int, stack: array<StackNode>, top: nat, lo: int, hi: int,
                             ghost p: seq<StackNode>)
    returns (top': nat, lo': int, hi': int, ghost left: int, ghost right: int, ghost q: seq<StackNode>)
    requires TotalPreorder(cmp)
    requires 0 < top && OnStack(stack, top, lo, hi, p)
    requires RangeOk(a.Length, StackNode(lo, hi))
    requires (a as object) != (stack as object)
    modifies a, stack
    ensures Partitioned(old(a[..]), a[..], cmp, StackNode(lo, hi), left, right)
    ensures KeptHalves(q, StackNode(lo, right), StackNode(left, hi))
    ensures |q| == 2 ==> Width(q[1]) <= Width(q[0])
    ensures |p[..top - 1] + q| <= 62 ==> OnStack(stack, top', lo', hi', p[..top - 1] + q)
  {
    var leftPtr, rightPtr := PartitionRange(a, cmp, lo, hi);
    left, right := leftPtr, rightPtr;
    top', lo', hi', q := NextRange(stack, top, lo, hi, leftPtr, rightPtr, p);
  }

  /** The outer loop with its explicit stack. */
  method QuickPhase<T(!new)>(a: array<T>, cmp: (T, T) -> int)
    requires TotalPreorder(cmp)
    requires MAX_THRESH < a.Length < SIZE_T_LIMIT
    modifies a
    ensures NearlySorted(a[..], cmp)
    ensures multiset(a[..]) == multiset(old(a[..]))
  {
    var lo, hi := 0, a.Length - 1;
    var stack := new StackNode[STACK_SIZE];
    var top: nat := 0;
    stack[top] := NULL_NODE;
    top := top + 1;
    ghost var p := [StackNode(lo, hi)];
    PendingStart(a[..], cmp);
    while 0 < top
      invariant fresh(stack) && OnStack(stack, top, lo, hi, p)
      invariant OuterLoop(old(a[..]), a[..], cmp, p)
      decreases TotalSpan(p)
    {
      ghost var s, rest := a[..], p[..top - 1];
      assert RangeOk(a.Length, p[top - 1]);
      ghost var left, right, q;
      top, lo, hi, left, right, q := OuterRound(a, cmp, stack, top, lo, hi, p);
      OuterLoopStep(old(a[..]), s, a[..], cmp, p, left, right, q);
      p := rest + q;
    }
    PendingDone(a[..], cmp);
  }

  lemma SpanTwo(p: seq<StackNode>, a: StackNode, b: StackNode)
    ensures TotalSpan(p + [a, b]) == TotalSpan(p) + (a.hi - a.lo) + (b.hi - b.lo)
  {
    assert p + [a, b] == (p + [a]) + [b];
    SpanAppend(p, a);
    SpanAppend(p + [a], b);
  }

  lemma InsideTransitive<T>(s: seq<T>, m: seq<T>, t: seq<T>, r: StackNode)
    requires 0 <= r.lo <= r.hi + 1 <= |s|
    requires PermutedInside(s, m, r) && PermutedInside(m, t, r)
    ensures PermutedInside(s, t, r)
  {
  }

  lemma WholePermuted<T>(s: seq<T>, t: seq<T>, r: StackNode)
    requires 0 <= r.lo <= r.hi + 1 <= |s|
    requires PermutedInside(s, t, r)
    ensures multiset(t) == multiset(s)
  {
    assert s == s[..r.lo] + s[r.lo..r.hi + 1] + s[r.hi + 1..];
    assert t == t[..r.lo] + t[r.lo..r.hi + 1] + t[r.hi + 1..];
    assert s[..r.lo] == t[..r.lo] && s[r.hi + 1..] == t[r.hi + 1..];
  }

  /** The element at `run` moved down to `pos`, the ones between shifted up by one. */
  ghost function Rotated<T>(s: seq<T>, pos: int, run: int): (t: seq<T>)
    requires 0 <= pos <= run < |s|
    ensures |t| == |s|
    ensures multiset(t) == multiset(s)
  {
    assert s == s[..pos] + s[pos..run] + [s[run]] + s[run + 1..];
    s[..pos] + [s[run]] + s[pos..run] + s[run + 1..]
  }

  /** The byte-wise rotation at the end of an insertion, on whole elements. */
  method Rotate<T>(a: array<T>, pos: int, run: int)
    requires 0 <= pos < run < a.Length
    modifies a
    ensures a[..] == Rotated(old(a[..]), pos, run)
  {
    var c := a[run];
    var hi, lo := run, run - 1;
    while pos <= lo
      invariant pos - 1 <= lo == hi - 1 && hi <= run
      invariant forall k :: 0 <= k < a.Length && !(hi < k <= run) ==> a[k] == old(a[k])
      invariant forall k :: hi < k <= run ==> a[k] == old(a[k - 1])
    {
      a[hi] := a[lo];
      hi := lo;
      lo := lo - 1;
    }
    a[hi] := c;
  }

  lemma InsertKeepsSorted<T(!new)>(s: seq<T>, t: seq<T>, cmp: (T, T) -> int, pos: int, run: int)
    requires TotalPreorder(cmp)
    requires 0 <= pos <= run < |s|
    requires t == Rotated(s, pos, run)
    requires Sorted(s[..run], cmp)
    requires forall k :: 0 <= k < pos ==> Le(cmp, s[k], s[run])
    requires forall k :: pos <= k < run ==> Le(cmp, s[run], s[k])
    ensures Sorted(t[..run + 1], cmp)
  {
    assert forall k :: 0 <= k < pos ==> t[k] == s[..run][k];
    assert forall k :: pos < k <= run ==> t[k] == s[..run][k - 1];
    assert t[pos] == s[run];
  }

  /** Put the smallest of the first MAX_THRESH + 1 slots into slot 0: on a nearly sorted array it
      is the smallest of all. */
  method PlaceSentinel<T(!new)>(a: array<T>, cmp: (T, T) -> int)
    requires TotalPreorder(cmp)
    requires 0 < a.Length
    requires NearlySorted(a[..], cmp)
    modifies a
    ensures forall k :: 0 <= k < a.Length ==> Le(cmp, a[0], a[k])
    ensures multiset(a[..]) == multiset(old(a[..]))
  {
    var end := a.Length - 1;
    var tmp := 0;
    var thresh := if end < MAX_THRESH then end else MAX_THRESH;
    var run := 1;
    while run <= thresh
      invariant 0 <= tmp < run <= thresh + 1
      invariant forall k :: 0 <= k < run ==> Le(cmp, a[tmp], a[k])
    {
      if cmp(a[run], a[tmp]) < 0 {
        tmp := run;
      }
      run := run + 1;
    }
    ghost var s := a[..];
    forall k | thresh < k < a.Length
      ensures Le(cmp, s[tmp], s[k])
    {
      assert Le(cmp, s[0], s[k]);
      Transitive(cmp, s[tmp], s[0], s[k]);
    }
    if tmp != 0 {
      Swap(a, tmp, 0);
    }
  }

  lemma PrefixBelow<T(!new)>(s: seq<T>, cmp: (T, T) -> int, tmp: int, run: int)
    requires TotalPreorder(cmp)
    requires 0 <= tmp < run < |s| && Sorted(s[..run], cmp) && Le(cmp, s[tmp], s[run])
    ensures forall k :: 0 <= k <= tmp ==> Le(cmp, s[k], s[run])
  {
    forall k | 0 <= k < tmp
      ensures Le(cmp, s[k], s[run])
    {
      assert Le(cmp, s[..run][k], s[..run][tmp]);
      Transitive(cmp, s[k], s[tmp], s[run]);
    }
  }

  /** One round of the insertion sort.  The backward scan has no lower bound test: slot 0 stops it. */
  method InsertRun<T(!new)>(a: array<T>, cmp: (T, T) -> int, run: int)
    requires TotalPreorder(cmp)
    requires 1 < run < a.Length
    requires Sorted(a[..run], cmp)
    requires Le(cmp, a[0], a[run])
    modifies a
    ensures Sorted(a[..run + 1], cmp)
    ensures a[0] == old(a[0])
    ensures multiset(a[..]) == multiset(old(a[..]))
  {
    ghost var s := a[..];
    var tmp := ScanDown(a, cmp, run - 1, run, 0);
    PrefixBelow(s, cmp, tmp, run);
    tmp := tmp + 1;
    assert s[..run] == a[..run];
    if tmp != run {
      Rotate(a, tmp, run);
    } else {
      assert s == Rotated(s, run, run);
    }
    InsertKeepsSorted(s, a[..], cmp, tmp, run);
  }

  /** The insertion sort that finishes the job. */
  method InsertionPhase<T(!new)>(a: array<T>, cmp: (T, T) -> int)
    requires TotalPreorder(cmp)
    requires 0 < a.Length
    requires NearlySorted(a[..], cmp)
    modifies a
    ensures Sorted(a[..], cmp)
    ensures multiset(a[..]) == multiset(old(a[..]))
  {
    PlaceSentinel(a, cmp);
    ghost var s := a[..];
    if a.Length == 1 {
      return;
    }
    var run := 2;
    while run <= a.Length - 1
      invariant 2 <= run <= a.Length
      invariant a[0] == s[0]
      invariant Sorted(a[..run], cmp)
      invariant multiset(a[..]) == multiset(s)
    {
      assert a[..][run] in multiset(s);
      InsertRun(a, cmp, run);
      run := run + 1;
    }
    assert a[..run] == a[..];
  }

  /** gnu_quicksort: for every array and every total preorder, a sorted permutation. */
  method GnuQuicksort<T(!new)>(a: array<T>, cmp: (T, T) -> int)
    requires TotalPreorder(cmp)
    requires a.Length < SIZE_T_LIMIT
    modifies a
    ensures Sorted(a[..], cmp)
    ensures multiset(a[..]) == multiset(old(a[..]))
  {
    if a.Length == 0 {
      return;
    }
    if MAX_THRESH < a.Length {
      QuickPhase(a, cmp);
    }
    InsertionPhase(a, cmp);
  }
}
