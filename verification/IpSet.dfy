/** The prefix set of nfq/pools.c: an AVL tree keyed by kavl_bit_cmp that keeps only the widest of
    overlapping prefixes, and its use as the ipset of a profile.
 */
module IpSet {
  import opened Bits
  import opened Bytes
  import opened Prefixes
  import opened AvlTree
  import opened KavlHeap
  import opened Kavl

  // ---------- sequences of pairwise disjoint prefixes ----------

  /** Left to right and pairwise disjoint: in particular no member contains another. */
  ghost predicate Strict(s: seq<Cidr>) {
    forall i, j :: 0 <= i < j < |s| ==> KavlBitCmp(s[i], s[j]) < 0
  }

  /** On such a sequence every prefix, contained or containing or neither, splits it as a search needs. */
  lemma StrictCuts(s: seq<Cidr>, x: Cidr)
    requires Strict(s)
    ensures Cuts(x, s, KavlBitCmp)
  {
    forall i, j | 0 <= i < j < |s|
      ensures KavlBitCmp(x, s[j]) > 0 ==> KavlBitCmp(x, s[i]) > 0
      ensures KavlBitCmp(x, s[i]) < 0 ==> KavlBitCmp(x, s[j]) < 0
    {
      EqualIsNested(x, s[j]);
      EqualIsNested(x, s[i]);
      if KavlBitCmp(x, s[j]) > 0 {
        BelowTransitive(s[i], s[j], x);
      }
      if KavlBitCmp(x, s[i]) < 0 {
        BelowTransitive(x, s[i], s[j]);
      }
    }
  }

  /** Members that compare equal are the same member. */
  lemma EqualMembers(s: seq<Cidr>, p: Cidr, q: Cidr)
    requires Strict(s) && p in s && q in s && KavlBitCmp(p, q) == 0
    ensures p == q
  {
    var i, j :| 0 <= i < |s| && s[i] == p && 0 <= j < |s| && s[j] == q;
    EqualIsNested(p, q);
  }

  lemma StrictInsert(s: seq<Cidr>, x: Cidr, k: nat)
    requires Strict(s) && k <= |s|
    requires forall i :: 0 <= i < k ==> KavlBitCmp(x, s[i]) > 0
    requires forall i :: k <= i < |s| ==> KavlBitCmp(x, s[i]) < 0
    ensures Strict(InsertAt(s, k, x))
    ensures forall p :: p in InsertAt(s, k, x) <==> p in s || p == x
  {
    var r := InsertAt(s, k, x);
    forall i | 0 <= i < k
      ensures KavlBitCmp(s[i], x) < 0
    {
      EqualIsNested(x, s[i]);
    }
    assert forall i :: 0 <= i < |r| ==> r[i] == if i < k then s[i] else if i == k then x else s[i - 1];
    assert s == s[..k] + s[k..];
  }

  lemma StrictRemove(s: seq<Cidr>, k: nat)
    requires Strict(s) && k < |s|
    ensures Strict(RemoveAt(s, k))
    ensures forall p :: p in RemoveAt(s, k) <==> p in s && p != s[k]
  {
    var r := RemoveAt(s, k);
    assert forall i :: 0 <= i < |r| ==> r[i] == if i < k then s[i] else s[i + 1];
    assert s == s[..k] + [s[k]] + s[k + 1..];
    forall i | 0 <= i < |s| && i != k
      ensures s[i] != s[k]
    {
      EqualIsNested(s[k], s[k]);
      assert KavlBitCmp(s[i], s[k]) != 0 || KavlBitCmp(s[k], s[i]) != 0;
    }
  }

  // ---------- what adding a prefix does ----------

  ghost predicate Covered(p: Cidr, s: seq<Cidr>) {
    exists q :: q in s && Within(p, q)
  }

  /** A prefix inside a member changes nothing; otherwise it replaces the members inside it. */
  ghost predicate Extends(s: seq<Cidr>, key: Cidr, s': seq<Cidr>) {
    && Strict(s')
    && (Covered(key, s) ==> s' == s)
    && (!Covered(key, s) ==> forall p :: p in s' <==> p == key || (p in s && !Within(p, key)))
  }

  /** While the narrower members are being deleted: nothing else is, and nothing at all is if the
      new prefix is already covered. */
  ghost predicate Trimmed(s: seq<Cidr>, s0: seq<Cidr>, key: Cidr) {
    && Strict(s) && Strict(s0)
    && (forall p :: p in s ==> p in s0)
    && (forall p :: p in s0 ==> p in s || Within(p, key))
    && (Covered(key, s0) ==> s == s0)
  }

  /** Deleting a member that is strictly narrower than the new prefix and overlaps it. */
  lemma TrimStep(s: seq<Cidr>, s0: seq<Cidr>, key: Cidr, k: nat)
    requires Trimmed(s, s0, key) && k < |s| && KavlBitCmp(key, s[k]) == 0 && key.bitlen < s[k].bitlen
    ensures Trimmed(RemoveAt(s, k), s0, key)
  {
    StrictRemove(s, k);
    EqualIsNested(key, s[k]);
    if Covered(key, s0) {
      var q :| q in s0 && Within(key, q);
      OverlapWidens(s[k], key, q);
      EqualMembers(s, s[k], q);
    }
  }

  /** The new prefix goes in: no remaining member overlaps it. */
  lemma TrimInsert(s: seq<Cidr>, s0: seq<Cidr>, key: Cidr, k: nat)
    requires Trimmed(s, s0, key) && k <= |s|
    requires forall i :: 0 <= i < k ==> KavlBitCmp(key, s[i]) > 0
    requires forall i :: k <= i < |s| ==> KavlBitCmp(key, s[i]) < 0
    ensures Extends(s0, key, InsertAt(s, k, key)) && !Covered(key, s0)
  {
    StrictInsert(s, key, k);
    forall p | p in s
      ensures !Within(p, key) && !Within(key, p)
    {
      EqualIsNested(key, p);
    }
  }

  /** The new prefix is refused: a remaining member is at least as wide. */
  lemma TrimRefuse(s: seq<Cidr>, s0: seq<Cidr>, key: Cidr, v: Cidr)
    requires Trimmed(s, s0, key) && v in s && KavlBitCmp(key, v) == 0 && v.bitlen <= key.bitlen
    ensures s == s0 && Extends(s0, key, s) && Covered(key, s0)
  {
    EqualIsNested(key, v);
    assert Within(key, v);
    assert Covered(key, s0);
  }

  // ---------- the set against the list of everything added ----------

  /** The members are pairwise disjoint, each was added, and each prefix ever added is inside one. */
  ghost predicate Indexes(s: seq<Cidr>, added: set<Cidr>) {
    && Strict(s)
    && (forall p :: p in s ==> p in added)
    && (forall p :: p in added ==> Covered(p, s))
  }

  lemma IndexesExtends(s: seq<Cidr>, added: set<Cidr>, key: Cidr, s': seq<Cidr>)
    requires Indexes(s, added) && Extends(s, key, s')
    ensures Indexes(s', added + {key})
  {
    forall p | p in added + {key}
      ensures Covered(p, s')
    {
      CoveredAfter(s, added, key, s', p);
    }
  }

  lemma CoveredAfter(s: seq<Cidr>, added: set<Cidr>, key: Cidr, s': seq<Cidr>, p: Cidr)
    requires Indexes(s, added) && Extends(s, key, s') && p in added + {key}
    ensures Covered(p, s')
  {
    if Covered(key, s) {
      if p !in added {
        assert p == key;
      }
    } else if p == key {
      assert Within(key, key) && key in s';
    } else {
      var q :| q in s && Within(p, q);
      if Within(q, key) {
        WithinTransitive(p, q, key);
        assert key in s';
      } else {
        assert q in s';
      }
    }
  }

  /** A lookup succeeds exactly when a linear scan of every prefix ever added finds an overlap. */
  lemma LookupIsScan(s: seq<Cidr>, added: set<Cidr>, x: Cidr)
    requires Indexes(s, added)
    ensures (exists p :: p in s && KavlBitCmp(x, p) == 0) <==> (exists c :: c in added && KavlBitCmp(x, c) == 0)
  {
    if c :| c in added && KavlBitCmp(x, c) == 0 {
      var q :| q in s && Within(c, q);
      OverlapWidens(x, c, q);
    }
  }

  /** For a full-length address overlapping means lying in. */
  lemma FullLengthOverlap(x: Cidr, c: Cidr)
    requires c.bitlen <= x.bitlen
    ensures KavlBitCmp(x, c) == 0 <==> Top(x.data, c.bitlen) == Top(c.data, c.bitlen)
  {
    EqualIsNested(x, c);
  }

  // ---------- the tree in memory ----------

  ghost predicate SetValid(hdr: Kavl<Cidr>)
    reads hdr
  {
    && hdr.Valid() && hdr.cmp == KavlBitCmp && Strict(InOrder(hdr.tree))
    && hdr.mem.Keys == Ids(hdr.tree)   // every element allocated and not freed is in the tree
  }

  /** An element has been allocated and is not in the tree yet. */
  ghost predicate Pending(hdr: Kavl<Cidr>, e: nat, key: Cidr, s0: seq<Cidr>)
    reads hdr
  {
    && hdr.Valid() && hdr.cmp == KavlBitCmp && Size(hdr.tree) + 1 < UNSIGNED_LIMIT
    && e != NULL && e !in Ids(hdr.tree) && hdr.mem.Keys == Ids(hdr.tree) + {e} && hdr.mem[e].key == key
    && Trimmed(InOrder(hdr.tree), s0, key)
  }

  ghost predicate Added(hdr: Kavl<Cidr>, e: nat, key: Cidr, s0: seq<Cidr>)
    reads hdr
  {
    SetValid(hdr) && e in Ids(hdr.tree) && Extends(s0, key, InOrder(hdr.tree)) && !Covered(key, s0)
  }

  /** The pending element could not go in: `v` compares equal. */
  ghost predicate Clashes(hdr: Kavl<Cidr>, e: nat, v: nat, key: Cidr, s0: seq<Cidr>)
    reads hdr
  {
    && Pending(hdr, e, key, s0) && v in Ids(hdr.tree)
    && hdr.mem[v].key in InOrder(hdr.tree) && KavlBitCmp(key, hdr.mem[v].key) == 0
  }

  /** The node a search stops at, in memory. */
  lemma {:induction false} FoundHeld(mem: Memory<Cidr>, t: Tree<Cidr>, x: Cidr)
    requires Holds(mem, t) && Find(t, x, KavlBitCmp).Node?
    ensures var f := Find(t, x, KavlBitCmp);
            && f.id in mem && f.id in Ids(t) && mem[f.id].key == f.key && KavlBitCmp(x, f.key) == 0
            && f.key in InOrder(t)
  {
    var c := KavlBitCmp(x, t.key);
    if c < 0 {
      FoundHeld(mem, t.left, x);
    } else if c > 0 {
      FoundHeld(mem, t.right, x);
    }
  }

  lemma SplitAtBelow(s: seq<Cidr>, x: Cidr, k: nat)
    requires Cuts(x, s, KavlBitCmp) && k == Below(x, s, KavlBitCmp)
    requires forall i :: 0 <= i < |s| ==> KavlBitCmp(x, s[i]) != 0
    ensures forall i :: 0 <= i < k ==> KavlBitCmp(x, s[i]) > 0
    ensures forall i :: k <= i < |s| ==> KavlBitCmp(x, s[i]) < 0
  {
    if k < |s| {
      assert KavlBitCmp(x, s[k]) < 0;
    }
  }

  lemma InsertExtends(t: Tree<Cidr>, e: nat, key: Cidr, s0: seq<Cidr>)
    requires Avl(t) && Trimmed(InOrder(t), s0, key) && Cuts(key, InOrder(t), KavlBitCmp)
    requires Find(t, key, KavlBitCmp).Nil?
    ensures Extends(s0, key, InOrder(Insert(t, e, key, KavlBitCmp).tree)) && !Covered(key, s0)
  {
    var s, k := InOrder(t), Below(key, InOrder(t), KavlBitCmp);
    FindCorrect(t, key, KavlBitCmp);
    InsertCorrect(t, e, key, KavlBitCmp);
    SplitAtBelow(s, key, k);
    TrimInsert(s, s0, key, k);
  }

  /** kavl_insert of the pending element. */
  method TryInsert(hdr: Kavl<Cidr>, e: nat, ghost key: Cidr, ghost s0: seq<Cidr>) returns (v: nat)
    requires Pending(hdr, e, key, s0)
    modifies hdr
    ensures hdr.mem.Keys == old(hdr.mem).Keys
    ensures if v == e then Added(hdr, e, key, s0) else Clashes(hdr, e, v, key, s0) && hdr.tree == old(hdr.tree)
  {
    ghost var t := hdr.tree;
    StrictCuts(InOrder(t), key);
    FindCorrect(t, key, KavlBitCmp);
    if Find(t, key, KavlBitCmp).Node? {
      FoundHeld(hdr.mem, t, key);
    } else {
      InsertExtends(t, e, key, s0);
    }
    var cnt;
    v, cnt := hdr.Insert(e);
  }

  ghost predicate DeletedAt(s: seq<Cidr>, key: Cidr, k: nat, s': seq<Cidr>) {
    k < |s| && KavlBitCmp(key, s[k]) == 0 && s' == RemoveAt(s, k)
  }

  /** Exactly the member that compares equal, if there is one, is gone. */
  ghost predicate Deleted(s: seq<Cidr>, key: Cidr, s': seq<Cidr>) {
    (exists k: nat :: DeletedAt(s, key, k, s')) || (s' == s && forall p :: p in s ==> KavlBitCmp(key, p) != 0)
  }

  lemma EraseDeletes(mem: Memory<Cidr>, t: Tree<Cidr>, x: Cidr)
    requires Holds(mem, t) && Avl(t) && Cuts(x, InOrder(t), KavlBitCmp)
    ensures var f := Find(t, x, KavlBitCmp);
            if f.Node? then
              f.id in mem && f.id in Ids(t) && Deleted(InOrder(t), x, InOrder(Remove(t, x, KavlBitCmp).tree))
              && Size(Remove(t, x, KavlBitCmp).tree) == Size(t) - 1
            else Deleted(InOrder(t), x, InOrder(t))
  {
    FindCorrect(t, x, KavlBitCmp);
    if Find(t, x, KavlBitCmp).Node? {
      FoundHeld(mem, t, x);
      RemoveCorrect(t, x, KavlBitCmp);
      assert DeletedAt(InOrder(t), x, Rank(t, x, KavlBitCmp) - 1, InOrder(Remove(t, x, KavlBitCmp).tree));
    }
  }

  /** kavl_erase by key, then the element and its data are freed. */
  method KavlBitDelete(hdr: Kavl<Cidr>, data: seq<byte>, bitlen: nat)
    requires BytesFor(bitlen) <= |data|
    requires hdr.Valid() && hdr.cmp == KavlBitCmp && Strict(InOrder(hdr.tree))
    modifies hdr
    ensures hdr.Valid()
    ensures hdr.mem.Keys == old(hdr.mem).Keys - (Ids(old(hdr.tree)) - Ids(hdr.tree))
    ensures Ids(hdr.tree) <= Ids(old(hdr.tree)) && Same(old(hdr.mem), hdr.mem, Ids(old(hdr.tree)))
    ensures Size(hdr.tree) <= Size(old(hdr.tree))
    ensures Deleted(InOrder(old(hdr.tree)), Prefix(bitlen, data), InOrder(hdr.tree))
  {
    var temp: Cidr := Prefix(bitlen, data);
    StrictCuts(InOrder(hdr.tree), temp);
    NullNotIn(hdr.tree);
    EraseDeletes(hdr.mem, hdr.tree, temp);
    var p, cnt := hdr.Erase(temp);
    if p != NULL {
      FreeElem(hdr, p);
      assert Ids(old(hdr.tree)) - Ids(hdr.tree) == {p};
    }
  }

  lemma {:induction false} NullNotIn(t: Tree<Cidr>)
    requires Distinct(t)
    ensures NULL !in Ids(t)
  {
    if t.Node? {
      NullNotIn(t.left);
      NullNotIn(t.right);
    }
  }

  /** kavl_bit_destroy_elem */
  method FreeElem(hdr: Kavl<Cidr>, p: nat)
    requires hdr.Valid() && p in hdr.mem && p !in Ids(hdr.tree)
    modifies hdr
    ensures hdr.Valid() && hdr.tree == old(hdr.tree) && hdr.mem == old(hdr.mem) - {p}
  {
    HoldsFrame(hdr.mem, hdr.mem - {p}, hdr.tree, {p});
    hdr.mem := hdr.mem - {p};
  }

  /** calloc and the two assignments: a new element at an address not in use. */
  method NewElem(hdr: Kavl<Cidr>, e: nat, key: Cidr)
    requires SetValid(hdr) && e != NULL && e !in hdr.mem && Size(hdr.tree) + 1 < UNSIGNED_LIMIT
    modifies hdr
    ensures Pending(hdr, e, key, InOrder(old(hdr.tree))) && hdr.tree == old(hdr.tree)
    ensures hdr.mem.Keys == old(hdr.mem).Keys + {e}
  {
    ghost var m := hdr.mem;
    hdr.mem := hdr.mem[e := Cell(key, 0, 0, NULL, NULL)];
    HoldsFrame(m, hdr.mem, hdr.tree, {e});
  }

  /** Make room for the pending element: the member found is narrower, so it goes. */
  method DropNarrower(hdr: Kavl<Cidr>, e: nat, v: nat, ghost key: Cidr, ghost s0: seq<Cidr>)
    requires Clashes(hdr, e, v, key, s0) && key.bitlen < hdr.mem[v].key.bitlen
    modifies hdr
    ensures hdr.mem.Keys <= old(hdr.mem).Keys
    ensures Pending(hdr, e, key, s0) && |InOrder(hdr.tree)| < |InOrder(old(hdr.tree))|
  {
    ghost var t, x := hdr.tree, hdr.mem[v].key;
    KavlBitDelete(hdr, hdr.mem[v].key.data, hdr.mem[v].key.bitlen);
    assert Prefix(x.bitlen, x.data) == x;
    DeletedMember(InOrder(t), x, InOrder(hdr.tree), s0, key);
    SizeIsLength(t);
    SizeIsLength(hdr.tree);
  }

  lemma DeletedMember(s: seq<Cidr>, x: Cidr, s': seq<Cidr>, s0: seq<Cidr>, key: Cidr)
    requires Trimmed(s, s0, key) && x in s && KavlBitCmp(key, x) == 0 && key.bitlen < x.bitlen
    requires Deleted(s, x, s')
    ensures Trimmed(s', s0, key) && |s'| == |s| - 1
  {
    EqualIsNested(x, x);
    var k: nat :| DeletedAt(s, x, k, s');
    EqualMembers(s, x, s[k]);
    TrimStep(s, s0, key, k);
  }

  /** The pending element is freed again. */
  method Refuse(hdr: Kavl<Cidr>, e: nat, v: nat, ghost key: Cidr, ghost s0: seq<Cidr>)
    requires Clashes(hdr, e, v, key, s0) && hdr.mem[v].key.bitlen <= key.bitlen
    modifies hdr
    ensures SetValid(hdr) && v in Ids(hdr.tree) && Extends(s0, key, InOrder(hdr.tree)) && Covered(key, s0)
    ensures hdr.mem.Keys <= old(hdr.mem).Keys
  {
    TrimRefuse(InOrder(hdr.tree), s0, key, hdr.mem[v].key);
    FreeElem(hdr, e);
  }

  /** kavl_bit_add: `e` is the address calloc returned. */
  method KavlBitAdd(hdr: Kavl<Cidr>, data: seq<byte>, bitlen: nat, e: nat) returns (v: nat)
    requires SetValid(hdr) && e != NULL && e !in hdr.mem && Size(hdr.tree) + 1 < UNSIGNED_LIMIT
    requires BytesFor(bitlen) <= |data|
    modifies hdr
    ensures SetValid(hdr) && v != NULL && v in Ids(hdr.tree)
    ensures Extends(InOrder(old(hdr.tree)), Prefix(bitlen, data), InOrder(hdr.tree))
    ensures v == e <==> !Covered(Prefix(bitlen, data), InOrder(old(hdr.tree)))
    ensures hdr.mem.Keys <= old(hdr.mem).Keys + {e}
  {
    ghost var s0, key: Cidr := InOrder(hdr.tree), Prefix(bitlen, data);
    NewElem(hdr, e, Prefix(bitlen, data));
    v := TryInsert(hdr, e, key, s0);
    while e != v && hdr.mem[e].key.bitlen < hdr.mem[v].key.bitlen
      invariant hdr.mem.Keys <= old(hdr.mem).Keys + {e}
      invariant if v == e then Added(hdr, e, key, s0) else Clashes(hdr, e, v, key, s0)
      decreases if v == e then 0 else 1 + |InOrder(hdr.tree)|
    {
      DropNarrower(hdr, e, v, key, s0);
      v := TryInsert(hdr, e, key, s0);
    }
    if e != v {
      Refuse(hdr, e, v, key, s0);
    }
    NullNotIn(hdr.tree);
  }

  /** kavl_bit_get: NULL exactly when no member overlaps. */
  method KavlBitGet(hdr: Kavl<Cidr>, data: seq<byte>, bitlen: nat) returns (v: nat)
    requires SetValid(hdr) && BytesFor(bitlen) <= |data|
    ensures v != NULL <==> exists p :: p in InOrder(hdr.tree) && KavlBitCmp(Prefix(bitlen, data), p) == 0
    ensures v != NULL ==> v in Ids(hdr.tree)
  {
    var temp: Cidr := Prefix(bitlen, data);
    StrictCuts(InOrder(hdr.tree), temp);
    NullNotIn(hdr.tree);
    if Find(hdr.tree, temp, KavlBitCmp).Node? {
      FoundHeld(hdr.mem, hdr.tree, temp);
    }
    var cnt;
    v, cnt := hdr.Find(temp);
  }

  // ---------- ipset ----------

  /** The subnet of preflen leading bits of an address, as stored: only the bytes it needs. */
  function Subnet(a: seq<byte>, preflen: nat): Cidr
    requires preflen <= 8 * |a|
  {
    Prefix(preflen, a[..BytesFor(preflen)])
  }

  lemma {:induction false} TopOfWhole(d: seq<byte>, n: nat)
    requires n <= |d|
    ensures Top(d, 8 * n) == BigEndian(d[..n])
  {
    if n != 0 {
      TopOfWhole(d, n - 1);
      TopByte(d, n - 1);
      assert d[..n][..n - 1] == d[..n - 1];
    }
  }

  lemma {:induction false} TopOfFront(d: seq<byte>, k: nat, n: nat)
    requires n <= 8 * k && k <= |d|
    ensures Top(d[..k], n) == Top(d, n)
  {
    if n != 0 {
      TopOfFront(d, k, n - 1);
    }
  }

  /** The address `x` lies in the subnet of `preflen` bits around `a`. */
  predicate LiesIn(x: seq<byte>, a: seq<byte>, preflen: nat)
    requires |x| == |a| && preflen <= 8 * |a|
  {
    Net(BigEndian(x), 8 * |a| - preflen) == Net(BigEndian(a), 8 * |a| - preflen)
  }

  /** A full-length address compares equal to a stored subnet exactly when it lies in it. */
  lemma FullLengthCompare(x: seq<byte>, a: seq<byte>, preflen: nat)
    requires |x| == |a| && preflen <= 8 * |a|
    ensures KavlBitCmp(Prefix(8 * |x|, x), Subnet(a, preflen)) == 0 <==> LiesIn(x, a, preflen)
  {
    var w := 8 * |a|;
    FullLengthOverlap(Prefix(w, x), Subnet(a, preflen));
    TopShorter(x, preflen, w);
    TopShorter(a, preflen, w);
    TopOfFront(a, BytesFor(preflen), preflen);
    TopOfWhole(x, |x|);
    TopOfWhole(a, |a|);
    assert x[..|x|] == x && a[..|a|] == a;
  }

  /** struct cidr4 / cidr6 */
  datatype Item = Item(addr: seq<byte>, preflen: nat)

  ghost predicate Proper(n: nat, added: set<Item>) {
    forall c :: c in added ==> |c.addr| == n && c.preflen <= 8 * n
  }

  ghost function Nets(n: nat, added: set<Item>): set<Cidr>
    requires Proper(n, added)
  {
    set c | c in added :: Subnet(c.addr, c.preflen)
  }

  lemma NetsAdd(n: nat, added: set<Item>, c: Item)
    requires Proper(n, added) && |c.addr| == n && c.preflen <= 8 * n
    ensures Proper(n, added + {c}) && Nets(n, added + {c}) == Nets(n, added) + {Subnet(c.addr, c.preflen)}
  {
  }

  /** The set answers for the items accepted so far, addresses being `n` bytes long. */
  ghost predicate Holding(hdr: Kavl<Cidr>, n: nat, added: set<Item>)
    reads hdr
  {
    SetValid(hdr) && Proper(n, added) && Indexes(InOrder(hdr.tree), Nets(n, added))
  }

  lemma HoldingNothing(hdr: Kavl<Cidr>, n: nat)
    requires SetValid(hdr) && hdr.tree == Nil
    ensures Holding(hdr, n, {})
  {
    assert Nets(n, {}) == {};
  }

  /** ipset4Add and ipset6Add for addresses of n bytes: too long a prefix is refused. */
  method IpsetAdd(hdr: Kavl<Cidr>, n: nat, a: seq<byte>, preflen: nat, e: nat, ghost added: set<Item>) returns (ok: bool)
    requires Holding(hdr, n, added) && |a| == n
    requires e != NULL && e !in hdr.mem && Size(hdr.tree) + 1 < UNSIGNED_LIMIT
    modifies hdr
    ensures ok <==> preflen <= 8 * n
    ensures Holding(hdr, n, if ok then added + {Item(a, preflen)} else added)
    ensures hdr.mem.Keys <= old(hdr.mem).Keys + {e}
  {
    if preflen > 8 * n {
      return false;
    }
    ghost var s := InOrder(hdr.tree);
    var abuf := a[..BytesFor(preflen)];
    var v := KavlBitAdd(hdr, abuf, preflen, e);
    HoldingMore(s, InOrder(hdr.tree), n, added, Item(a, preflen));
    return true;
  }

  lemma HoldingMore(s: seq<Cidr>, s': seq<Cidr>, n: nat, added: set<Item>, c: Item)
    requires Proper(n, added) && |c.addr| == n && c.preflen <= 8 * n
    requires Indexes(s, Nets(n, added)) && Extends(s, Subnet(c.addr, c.preflen), s')
    ensures Proper(n, added + {c}) && Indexes(s', Nets(n, added + {c}))
  {
    IndexesExtends(s, Nets(n, added), Subnet(c.addr, c.preflen), s');
    NetsAdd(n, added, c);
  }

  /** ipset4Check and ipset6Check as ipset.c calls them, with a whole address: some subnet that was
      ever added contains it. */
  method IpsetCheck(hdr: Kavl<Cidr>, n: nat, x: seq<byte>, ghost added: set<Item>) returns (found: bool)
    requires Holding(hdr, n, added) && |x| == n
    ensures found <==> exists c :: c in added && LiesIn(x, c.addr, c.preflen)
  {
    var v := KavlBitGet(hdr, x, 8 * n);
    found := v != NULL;
    ScanIsMembership(InOrder(hdr.tree), n, added, x);
  }

  lemma ScanIsMembership(s: seq<Cidr>, n: nat, added: set<Item>, x: seq<byte>)
    requires Proper(n, added) && Indexes(s, Nets(n, added)) && |x| == n
    ensures (exists p :: p in s && KavlBitCmp(Prefix(8 * n, x), p) == 0)
        <==> (exists c :: c in added && LiesIn(x, c.addr, c.preflen))
  {
    LookupIsScan(s, Nets(n, added), Prefix(8 * n, x));
    forall c | c in added
      ensures Subnet(c.addr, c.preflen) in Nets(n, added)
      ensures KavlBitCmp(Prefix(8 * n, x), Subnet(c.addr, c.preflen)) == 0 <==> LiesIn(x, c.addr, c.preflen)
    {
      FullLengthCompare(x, c.addr, c.preflen);
    }
  }

  lemma {:induction false} IdsCount(t: Tree<Cidr>)
    requires Distinct(t)
    ensures |Ids(t)| == |InOrder(t)|
  {
    if t.Node? {
      IdsCount(t.left);
      IdsCount(t.right);
      assert Ids(t) == {t.id} + (Ids(t.left) + Ids(t.right));
    }
  }

  ghost predicate Unused(addrs: seq<nat>, mem: Memory<Cidr>) {
    && (forall i, j :: 0 <= i < j < |addrs| ==> addrs[i] != addrs[j])
    && (forall i :: 0 <= i < |addrs| ==> addrs[i] != NULL && addrs[i] !in mem)
  }

  /** The lines of an ipset file (nfq/ipset.c), parsed: all go in, or loading stops at one that is refused. */
  method AppendIpset(hdr: Kavl<Cidr>, n: nat, list: seq<Item>, addrs: seq<nat>) returns (ok: bool)
    requires SetValid(hdr) && hdr.tree == Nil
    requires |addrs| == |list| < UNSIGNED_LIMIT - 1 && Unused(addrs, hdr.mem)
    requires forall c :: c in list ==> |c.addr| == n
    modifies hdr
    ensures ok <==> forall c :: c in list ==> c.preflen <= 8 * n
    ensures ok ==> Holding(hdr, n, Items(list))
  {
    HoldingNothing(hdr, n);
    ok := true;
    var i := 0;
    while i < |list|
      invariant i <= |list| && ok && Holding(hdr, n, Items(list[..i]))
      invariant (forall k :: i <= k < |addrs| ==> addrs[k] !in hdr.mem) && |hdr.mem.Keys| <= i
    {
      HoldingSize(hdr);
      ghost var before := hdr.mem.Keys;
      ok := IpsetAdd(hdr, n, list[i].addr, list[i].preflen, addrs[i], Items(list[..i]));
      if !ok {
        assert list[i] in list;
        return;
      }
      CountOneMore(before, hdr.mem.Keys, addrs[i]);
      ItemsStep(list, i);
      i := i + 1;
    }
    assert list[..i] == list;
  }

  ghost function Items(list: seq<Item>): set<Item> {
    set c | c in list
  }

  lemma ItemsStep(list: seq<Item>, i: nat)
    requires i < |list|
    ensures Items(list[..i + 1]) == Items(list[..i]) + {list[i]}
  {
    assert list[..i + 1] == list[..i] + [list[i]];
  }

  lemma HoldingSize(hdr: Kavl<Cidr>)
    requires SetValid(hdr)
    ensures Size(hdr.tree) == |hdr.mem.Keys|
  {
    IdsCount(hdr.tree);
    SizeIsLength(hdr.tree);
  }

  lemma CountOneMore(a: set<nat>, b: set<nat>, e: nat)
    requires b <= a + {e}
    ensures |b| <= |a| + 1
  {
    SubsetCount(b, a + {e});
  }

  lemma {:induction false} SubsetCount(a: set<nat>, b: set<nat>)
    requires a <= b
    ensures |a| <= |b|
  {
    if a != {} {
      var x :| x in a;
      SubsetCount(a - {x}, b - {x});
    }
  }
}
