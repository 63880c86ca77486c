/** In-place removal of adjacent duplicates: unique and unique6 of ip2net/ip2net.c and
    unique_size_t of nfq/helpers.c are the same loop at three element types.
 */
module Dedup {

  /** The sequence with every element equal to its predecessor left out. */
  function Distinct<T(==)>(s: seq<T>): seq<T> {
    if |s| == 0 then []
    else
      var n := |s| - 1;
      if 0 < n && s[n] == s[n - 1] then Distinct(s[..n]) else Distinct(s[..n]) + [s[n]]
  }

  lemma DistinctExtend<T>(s: seq<T>, j: nat)
    requires j < |s|
    ensures Distinct(s[..j + 1]) ==
            if 0 < j && s[j] == s[j - 1] then Distinct(s[..j]) else Distinct(s[..j]) + [s[j]]
  {
    assert s[..j + 1][..j] == s[..j];
  }

  lemma {:induction false} DistinctShrinks<T>(s: seq<T>)
    ensures |Distinct(s)| <= |s|
    ensures s != [] ==> Distinct(s) != [] && Distinct(s)[|Distinct(s)| - 1] == s[|s| - 1]
  {
    if s != [] {
      DistinctShrinks(s[..|s| - 1]);
    }
  }

  /** Nothing is lost and nothing is made up. */
  lemma {:induction false} DistinctElements<T>(s: seq<T>, x: T)
    ensures x in Distinct(s) <==> x in s
  {
    if s != [] {
      var n := |s| - 1;
      DistinctElements(s[..n], x);
      assert s == s[..n] + [s[n]];
    }
  }

  ghost predicate NonDescending<T>(s: seq<T>, key: T -> int) {
    forall i, j :: 0 <= i < j < |s| ==> key(s[i]) <= key(s[j])
  }

  ghost predicate StrictlyAscending<T>(s: seq<T>, key: T -> int) {
    forall i, j :: 0 <= i < j < |s| ==> key(s[i]) < key(s[j])
  }

  /** On a sorted list whose keys tell the elements apart, no duplicate survives. */
  lemma {:induction false} DistinctAscends<T>(s: seq<T>, key: T -> int)
    requires NonDescending(s, key)
    requires forall i, j :: 0 <= i < |s| && 0 <= j < |s| && key(s[i]) == key(s[j]) ==> s[i] == s[j]
    ensures StrictlyAscending(Distinct(s), key)
  {
    if s != [] {
      var n := |s| - 1;
      var t := s[..n];
      DistinctAscends(t, key);
      DistinctShrinks(t);
      if 0 < n && s[n] != s[n - 1] {
        var d := Distinct(t);
        assert d[|d| - 1] == s[n - 1];
        assert key(s[n - 1]) < key(s[n]);
      }
    }
  }

  /** The loop: compact the first ct elements, return how many are left. */
  method Unique<T(==)>(pu: array<T>, ct: nat) returns (r: nat)
    requires ct <= pu.Length
    modifies pu
    ensures r <= ct && pu[..r] == Distinct(old(pu[..ct]))
  {
    ghost var s := pu[..ct];
    var i, j := 0, 0;
    while j < ct
      invariant i <= j <= ct
      invariant pu[..i] == Distinct(s[..j])
      invariant forall k :: j <= k < ct ==> pu[k] == s[k]
      invariant 0 < j < ct ==> s[j] != s[j - 1]
    {
      var u := pu[j];
      ghost var d := Distinct(s[..j]);
      DistinctExtend(s, j);
      j := j + 1;
      while j < ct && pu[j] == u
        invariant i < j <= ct
        invariant u == s[j - 1]
        invariant Distinct(s[..j]) == d + [u]
        invariant pu[..i] == d
        invariant forall k :: j <= k < ct ==> pu[k] == s[k]
      {
        DistinctExtend(s, j);
        j := j + 1;
      }
      pu[i] := u;
      i := i + 1;
    }
    assert s[..j] == s;
    return i;
  }
}
