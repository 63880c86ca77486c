/** Where the packets of a request are split: resolved positions are sorted and made unique, then moved into the
    coordinates of the packet at hand (nfq/protocol.c, nfq/desync.c).
 */
module SplitPositions {
  import Dedup
  import Quicksort
  import opened TcpPlans

  ghost predicate Ascending(s: seq<nat>) {
    forall i, j :: 0 <= i < j < |s| ==> s[i] < s[j]
  }

  // ---------- ResolveMultiPos ----------

  /** cmp_size_t */
  function CmpSizeT(a: nat, b: nat): int {
    if a < b then -1 else if a > b then 1 else 0
  }

  /** qsort_size_t on the first ct elements. */
  method QsortSizeT(pos: array<nat>, ct: nat)
    requires ct <= pos.Length && ct < Quicksort.SIZE_T_LIMIT
    modifies pos
    ensures Quicksort.Sorted(pos[..ct], CmpSizeT) && multiset(pos[..ct]) == multiset(old(pos[..ct]))
  {
    ghost var s0 := pos[..ct];
    var part := new nat[ct](k requires 0 <= k < ct && ct <= pos.Length reads pos => pos[k]);
    assert part[..] == s0;
    Quicksort.GnuQuicksort(part, CmpSizeT);
    ghost var s1 := part[..];
    for k := 0 to ct
      invariant part[..] == s1 && pos[..k] == s1[..k]
    {
      pos[k] := part[k];
    }
    assert pos[..ct] == s1;
  }

  function NonZero(s: seq<nat>): seq<nat> {
    if s == [] then []
    else NonZero(s[..|s| - 1]) + (if s[|s| - 1] != 0 then [s[|s| - 1]] else [])
  }

  lemma {:induction false} NonZeroElements(s: seq<nat>, x: nat)
    ensures x in NonZero(s) <==> x in s && x != 0
    ensures |NonZero(s)| <= |s|
  {
    if s != [] {
      NonZeroElements(s[..|s| - 1], x);
      assert s == s[..|s| - 1] + [s[|s| - 1]];
    }
  }

  /** ResolveMultiPos: `resolved` are the values of ResolvePos, zero where a marker is not found.  The result is
      each position found, once, in ascending order. */
  method ResolveMultiPos(resolved: seq<nat>, pos: array<nat>) returns (ct: nat)
    requires |resolved| <= pos.Length && |resolved| < Quicksort.SIZE_T_LIMIT
    modifies pos
    ensures ct <= |resolved| && Ascending(pos[..ct])
    ensures forall x :: x in pos[..ct] <==> x in resolved && x != 0
  {
    var i, j := 0, 0;
    while i < |resolved|
      invariant j <= i <= |resolved| && pos[..j] == NonZero(resolved[..i])
    {
      pos[j] := resolved[i];
      assert resolved[..i + 1][..i] == resolved[..i];
      if pos[j] != 0 {
        j := j + 1;
      }
      i := i + 1;
    }
    assert resolved[..i] == resolved;
    QsortSizeT(pos, j);
    ghost var sorted := pos[..j];
    ct := Dedup.Unique(pos, j);
    UniqueAscending(NonZero(resolved), sorted);
    forall x
      ensures x in pos[..ct] <==> x in resolved && x != 0
    {
      NonZeroElements(resolved, x);
    }
  }

  lemma UniqueAscending(s0: seq<nat>, s1: seq<nat>)
    requires Quicksort.Sorted(s1, CmpSizeT) && multiset(s1) == multiset(s0)
    ensures Ascending(Dedup.Distinct(s1))
    ensures forall x :: x in Dedup.Distinct(s1) <==> x in s0
  {
    forall i, j | 0 <= i < j < |s1|
      ensures s1[i] <= s1[j]
    {
      assert Quicksort.Le(CmpSizeT, s1[i], s1[j]);
    }
    var key := (x: nat) => x;
    Dedup.DistinctAscends(s1, key);
    var d := Dedup.Distinct(s1);
    forall i, j | 0 <= i < j < |d|
      ensures d[i] < d[j]
    {
      assert key(d[i]) < key(d[j]);
    }
    forall x
      ensures x in d <==> x in s0
    {
      Dedup.DistinctElements(s1, x);
      assert x in s1 <==> x in multiset(s1);
      assert x in s0 <==> x in multiset(s0);
    }
  }

  // ---------- into packet coordinates ----------

  /** pos_normalize: zero unless the position lies strictly inside the packet. */
  function PosNormalize(splitPos: nat, reasmOffset: nat, len: nat): nat {
    if splitPos > reasmOffset && splitPos - reasmOffset < len then splitPos - reasmOffset else 0
  }

  /** The positions that fall strictly inside the packet, relative to it. */
  function Normalized(pos: seq<nat>, offset: nat, len: nat): seq<nat> {
    if pos == [] then []
    else
      var p := PosNormalize(pos[|pos| - 1], offset, len);
      Normalized(pos[..|pos| - 1], offset, len) + (if p != 0 then [p] else [])
  }

  /** The loop that normalises the positions in place and drops those outside. */
  method NormalizePositions(pos: array<nat>, ct: nat, reasmOffset: nat, len: nat) returns (j: nat)
    requires ct <= pos.Length
    modifies pos
    ensures j <= ct && pos[..j] == Normalized(old(pos[..ct]), reasmOffset, len)
  {
    ghost var s := pos[..ct];
    j := 0;
    var i := 0;
    while i < ct
      invariant j <= i <= ct && pos[..j] == Normalized(s[..i], reasmOffset, len)
      invariant forall k :: i <= k < ct ==> pos[k] == s[k]
    {
      assert s[..i + 1][..i] == s[..i];
      pos[j] := PosNormalize(pos[i], reasmOffset, len);
      if pos[j] != 0 {
        j := j + 1;
      }
      i := i + 1;
    }
    assert s[..i] == s;
  }

  lemma {:induction false} NormalizedElements(pos: seq<nat>, offset: nat, len: nat, x: nat)
    ensures x in Normalized(pos, offset, len) <==> x + offset in pos && 0 < x < len
  {
    if pos != [] {
      var n := |pos| - 1;
      NormalizedElements(pos[..n], offset, len, x);
      assert pos == pos[..n] + [pos[n]];
    }
  }

  /** Ascending positions stay ascending, so the branch gets split positions it can use. */
  lemma {:induction false} NormalizedSplits(pos: seq<nat>, offset: nat, len: nat)
    requires Ascending(pos)
    ensures SplitsOf(Normalized(pos, offset, len), len)
    ensures forall x :: x in Normalized(pos, offset, len) ==> pos != [] && x + offset <= pos[|pos| - 1]
  {
    if pos != [] {
      var n := |pos| - 1;
      NormalizedSplits(pos[..n], offset, len);
      var a := Normalized(pos[..n], offset, len);
      forall k | 0 <= k < |a|
        ensures a[k] + offset < pos[n]
      {
        assert a[k] in a;
      }
    }
  }
}
