/** Doubly linked lists threaded through elements in memory, as nfq/uthash.h keeps two of them per element. */
module Linked {

  const NULL := 0

  /** The two pointers an element holds for one list. */
  datatype Link = Link(prev: nat, next: nat)

  type Links = map<nat, Link>

  ghost predicate NoRepeats(s: seq<nat>) {
    forall i, j :: 0 <= i < j < |s| ==> s[i] != s[j]
  }

  function First(s: seq<nat>): nat {
    if s == [] then NULL else s[0]
  }

  function Last(s: seq<nat>): nat {
    if s == [] then NULL else s[|s| - 1]
  }

  function Before(s: seq<nat>, i: nat): nat
    requires i < |s|
  {
    if i == 0 then NULL else s[i - 1]
  }

  function Behind(s: seq<nat>, i: nat): nat
    requires i < |s|
  {
    if i + 1 < |s| then s[i + 1] else NULL
  }

  function Without(s: seq<nat>, k: nat): seq<nat>
    requires k < |s|
  {
    s[..k] + s[k + 1..]
  }

  /** The element at position i is linked to its neighbours. */
  ghost predicate LinkedAt(m: Links, s: seq<nat>, i: nat)
    requires i < |s|
  {
    s[i] in m && m[s[i]] == Link(Before(s, i), Behind(s, i))
  }

  /** These elements, in this order, make up the list. */
  ghost predicate List(m: Links, s: seq<nat>) {
    NoRepeats(s) && NULL !in s && forall i :: 0 <= i < |s| ==> LinkedAt(m, s, i)
  }

  lemma ListFrame(m: Links, m': Links, s: seq<nat>)
    requires List(m, s) && forall x :: x in s && x in m ==> x in m' && m'[x] == m[x]
    ensures List(m', s)
  {
    forall i | 0 <= i < |s|
      ensures LinkedAt(m', s, i)
    {
      assert LinkedAt(m, s, i) && s[i] in s;
    }
  }

  lemma WithoutElements(s: seq<nat>, k: nat)
    requires NoRepeats(s) && k < |s|
    ensures NoRepeats(Without(s, k)) && forall x :: x in Without(s, k) <==> x in s && x != s[k]
  {
    var t := Without(s, k);
    assert forall i :: 0 <= i < |t| ==> t[i] == s[if i < k then i else i + 1];
    forall x | x in s && x != s[k]
      ensures x in t
    {
      var j :| 0 <= j < |s| && s[j] == x;
      assert t[if j < k then j else j - 1] == x;
    }
  }

  // ---------- at the front ----------

  /** x becomes the first element. */
  function Pushed(m: Links, head: nat, x: nat): (r: Links)
    requires x in m && (head != NULL ==> head in m)
    ensures r.Keys == m.Keys
  {
    var m1 := m[x := Link(NULL, head)];
    if head != NULL then m1[head := m1[head].(prev := x)] else m1
  }

  lemma Push(m: Links, s: seq<nat>, x: nat)
    requires List(m, s) && x in m && x != NULL && x !in s
    ensures First(s) != NULL ==> First(s) in m
    ensures List(Pushed(m, First(s), x), [x] + s)
  {
    assert s != [] ==> LinkedAt(m, s, 0);
    var r, t := Pushed(m, First(s), x), [x] + s;
    forall i | 0 <= i < |t|
      ensures LinkedAt(r, t, i)
    {
      if i > 0 {
        assert LinkedAt(m, s, i - 1) && t[i] == s[i - 1];
      }
    }
  }

  // ---------- at the end ----------

  /** x becomes the last element. */
  function Appended(m: Links, tail: nat, x: nat): (r: Links)
    requires x in m && (tail != NULL ==> tail in m)
    ensures r.Keys == m.Keys
  {
    var m1 := m[x := Link(tail, NULL)];
    if tail != NULL then m1[tail := m1[tail].(next := x)] else m1
  }

  lemma Append(m: Links, s: seq<nat>, x: nat)
    requires List(m, s) && x in m && x != NULL && x !in s
    ensures Last(s) != NULL ==> Last(s) in m
    ensures List(Appended(m, Last(s), x), s + [x])
  {
    assert s != [] ==> LinkedAt(m, s, |s| - 1);
    var r, t := Appended(m, Last(s), x), s + [x];
    forall i | 0 <= i < |t|
      ensures LinkedAt(r, t, i)
    {
      if i < |s| {
        assert LinkedAt(m, s, i) && t[i] == s[i];
      }
    }
  }

  // ---------- taking out ----------

  /** The neighbours of x are linked to each other. */
  function Unlinked(m: Links, x: nat): (r: Links)
    requires x in m && (m[x].prev != NULL ==> m[x].prev in m) && (m[x].next != NULL ==> m[x].next in m)
    ensures r.Keys == m.Keys
  {
    var p, n := m[x].prev, m[x].next;
    var m1 := if p != NULL then m[p := m[p].(next := n)] else m;
    if n != NULL then m1[n := m1[n].(prev := p)] else m1
  }

  lemma Neighbours(m: Links, s: seq<nat>, k: nat)
    requires List(m, s) && k < |s|
    ensures s[k] in m && m[s[k]] == Link(Before(s, k), Behind(s, k))
    ensures m[s[k]].prev != NULL ==> m[s[k]].prev in m
    ensures m[s[k]].next != NULL ==> m[s[k]].next in m
    ensures Before(s, k) == NULL <==> k == 0
    ensures Behind(s, k) == NULL <==> k + 1 == |s|
  {
    assert LinkedAt(m, s, k);
    if k > 0 {
      assert LinkedAt(m, s, k - 1);
      assert s[k - 1] in s;
    }
    if k + 1 < |s| {
      assert LinkedAt(m, s, k + 1);
      assert s[k + 1] in s;
    }
  }

  lemma Unlink(m: Links, s: seq<nat>, k: nat)
    requires List(m, s) && k < |s|
    ensures s[k] in m && (m[s[k]].prev != NULL ==> m[s[k]].prev in m) && (m[s[k]].next != NULL ==> m[s[k]].next in m)
    ensures List(Unlinked(m, s[k]), Without(s, k))
    ensures First(Without(s, k)) == if k == 0 then m[s[k]].next else First(s)
    ensures Last(Without(s, k)) == if k + 1 == |s| then m[s[k]].prev else Last(s)
  {
    Neighbours(m, s, k);
    WithoutElements(s, k);
    var t := Without(s, k);
    forall i | 0 <= i < |t|
      ensures LinkedAt(Unlinked(m, s[k]), t, i)
    {
      UnlinkAt(m, s, k, if i < k then i else i + 1);
    }
  }

  lemma UnlinkAt(m: Links, s: seq<nat>, k: nat, j: nat)
    requires List(m, s) && k < |s| && j < |s| && j != k
    requires s[k] in m && (m[s[k]].prev != NULL ==> m[s[k]].prev in m) && (m[s[k]].next != NULL ==> m[s[k]].next in m)
    ensures LinkedAt(Unlinked(m, s[k]), Without(s, k), if j < k then j else j - 1)
  {
    var t, i := Without(s, k), if j < k then j else j - 1;
    assert LinkedAt(m, s, j) && LinkedAt(m, s, k) && s[j] in s;
    assert t[i] == s[j];
    if j + 1 == k {
      assert Behind(t, i) == Behind(s, k);
    } else if j == k + 1 {
      assert Before(t, i) == Before(s, k);
    } else {
      assert s[j] != m[s[k]].prev && s[j] != m[s[k]].next;
    }
  }
}
