/** The phases of kavl_insert as edits along the search path, and why they amount to the recursive
    insertion of module AvlTree.
 */
module KavlInsert {
  import opened AvlTree
  import opened KavlHeap

  /** The directions a search for x takes. */
  ghost predicate SearchPath<K>(t: Tree<K>, dirs: seq<nat>, x: K, cmp: Order<K>) {
    dirs == [] ||
    (t.Node? && cmp(x, t.key) != 0 && dirs[0] == Dir(x, t, cmp) && SearchPath(Child(t, dirs[0]), dirs[1..], x, cmp))
  }

  lemma {:induction false} SearchPathOn<K>(t: Tree<K>, dirs: seq<nat>, x: K, cmp: Order<K>)
    requires SearchPath(t, dirs, x, cmp)
    ensures OnPath(t, dirs)
    ensures Find(t, x, cmp) == Find(At(t, dirs), x, cmp)
    ensures |dirs| + Height(At(t, dirs)) <= Height(t)
  {
    if dirs != [] {
      SearchPathOn(Child(t, dirs[0]), dirs[1..], x, cmp);
    }
  }

  lemma {:induction false} SearchPathExtend<K>(t: Tree<K>, dirs: seq<nat>, x: K, cmp: Order<K>)
    requires SearchPath(t, dirs, x, cmp) && OnPath(t, dirs)
    requires At(t, dirs).Node? && cmp(x, At(t, dirs).key) != 0
    ensures SearchPath(t, dirs + [Dir(x, At(t, dirs), cmp)], x, cmp)
  {
    var d := Dir(x, At(t, dirs), cmp);
    if dirs == [] {
      assert [d][1..] == [];
    } else {
      assert (dirs + [d])[1..] == dirs[1..] + [d];
      SearchPathExtend(Child(t, dirs[0]), dirs[1..], x, cmp);
    }
  }

  /** All balance factors on a path are zero. */
  ghost predicate Even<K>(t: Tree<K>, dirs: seq<nat>)
    requires OnPath(t, dirs)
  {
    dirs == [] || (t.bal == 0 && Even(Child(t, dirs[0]), dirs[1..]))
  }

  /** Depth b is the deepest uneven node of the path, or the root when there is none. */
  ghost predicate Pivot<K>(t: Tree<K>, dirs: seq<nat>, b: nat)
    requires OnPath(t, dirs)
  {
    b < |dirs| &&
    if b == 0 then Even(Child(t, dirs[0]), dirs[1..])
    else Pivot(Child(t, dirs[0]), dirs[1..], b - 1) && (b == 1 ==> Child(t, dirs[0]).bal != 0)
  }

  /** The balance factor update from the pivot down, then at most one rotation at the pivot. */
  ghost function Finish<K>(t: Tree<K>, dirs: seq<nat>, b: nat): Tree<K>
    requires OnPath(t, dirs) && b <= |dirs|
  {
    if b == 0 then Settle(Along(Lean, t, dirs, |dirs|))
    else Link(t, dirs[0], Finish(Child(t, dirs[0]), dirs[1..], b - 1))
  }

  /** no re-balance needed, or one */
  function Settle<K>(t: Tree<K>): Tree<K> {
    if t.Node? && !(-2 < t.bal < 2) then Rebalance(t) else t
  }

  /** The sequence of edits kavl_insert makes: link the new leaf, count it, lean, rotate. */
  ghost function Edited<K>(t: Tree<K>, dirs: seq<nat>, b: nat, leaf: Tree<K>): Tree<K>
    requires OnPath(t, dirs) && b <= |dirs|
  {
    PutAt(t, dirs, leaf);
    var t1 := Put(t, dirs, leaf);
    AlongPath(Grow, t1, dirs, |dirs|);
    Finish(Along(Grow, t1, dirs, |dirs|), dirs, b)
  }

  lemma {:induction false} EvenInsert<K>(t: Tree<K>, dirs: seq<nat>, id: nat, x: K, cmp: Order<K>)
    requires SearchPath(t, dirs, x, cmp) && OnPath(t, dirs) && At(t, dirs).Nil? && Even(t, dirs)
    ensures OnPath(Put(t, dirs, Leaf(id, x)), dirs)
    ensures OnPath(Along(Grow, Put(t, dirs, Leaf(id, x)), dirs, |dirs|), dirs)
    ensures Insert(t, id, x, cmp) ==
            Step(Along(Lean, Along(Grow, Put(t, dirs, Leaf(id, x)), dirs, |dirs|), dirs, |dirs|), true)
  {
    PutAt(t, dirs, Leaf(id, x));
    AlongPath(Grow, Put(t, dirs, Leaf(id, x)), dirs, |dirs|);
    if dirs != [] {
      EvenInsert(Child(t, dirs[0]), dirs[1..], id, x, cmp);
    }
  }

  function Leaf<K>(id: nat, x: K): Tree<K> {
    Node(id, x, 0, 1, Nil, Nil)
  }

  /** The edits along the path are the recursive insertion. */
  lemma {:induction false} EditedIsInsert<K>(t: Tree<K>, dirs: seq<nat>, b: nat, id: nat, x: K, cmp: Order<K>)
    requires Avl(t) && SearchPath(t, dirs, x, cmp) && OnPath(t, dirs) && At(t, dirs).Nil? && Pivot(t, dirs, b)
    ensures Edited(t, dirs, b, Leaf(id, x)) == Insert(t, id, x, cmp).tree
    ensures Insert(t, id, x, cmp).level <==> b == 0 && t.bal == 0
  {
    var c, rest := Child(t, dirs[0]), dirs[1..];
    if b == 0 {
      EvenInsert(c, rest, id, x, cmp);
      InsertAtPivot(t, dirs, id, x, cmp);
    } else {
      EditedIsInsert(c, rest, b - 1, id, x, cmp);
    }
  }

  lemma InsertAtPivot<K>(t: Tree<K>, dirs: seq<nat>, id: nat, x: K, cmp: Order<K>)
    requires Avl(t) && SearchPath(t, dirs, x, cmp) && OnPath(t, dirs) && dirs != []
    requires OnPath(Put(Child(t, dirs[0]), dirs[1..], Leaf(id, x)), dirs[1..])
    requires OnPath(Along(Grow, Put(Child(t, dirs[0]), dirs[1..], Leaf(id, x)), dirs[1..], |dirs| - 1), dirs[1..])
    requires Insert(Child(t, dirs[0]), id, x, cmp) ==
             Step(Along(Lean, Along(Grow, Put(Child(t, dirs[0]), dirs[1..], Leaf(id, x)), dirs[1..], |dirs| - 1), dirs[1..], |dirs| - 1), true)
    ensures Edited(t, dirs, 0, Leaf(id, x)) == Insert(t, id, x, cmp).tree
    ensures Insert(t, id, x, cmp).level <==> t.bal == 0
  {
  }

  // ---------- maintaining the pivot during the descent ----------

  lemma {:induction false} EvenExtend<K>(t: Tree<K>, dirs: seq<nat>, d: nat)
    requires OnPath(t, dirs + [d]) && OnPath(t, dirs) && Even(t, dirs) && At(t, dirs).Node?
    ensures Even(t, dirs + [d]) <==> At(t, dirs).bal == 0
  {
    if dirs == [] {
      assert [d][1..] == [];
    } else {
      assert (dirs + [d])[1..] == dirs[1..] + [d];
      EvenExtend(Child(t, dirs[0]), dirs[1..], d);
    }
  }

  lemma {:induction false} PivotKeeps<K>(t: Tree<K>, dirs: seq<nat>, d: nat, b: nat)
    requires OnPath(t, dirs + [d]) && OnPath(t, dirs) && Pivot(t, dirs, b)
    requires At(t, dirs).Node? && At(t, dirs).bal == 0
    ensures Pivot(t, dirs + [d], b)
  {
    assert (dirs + [d])[1..] == dirs[1..] + [d];
    if b == 0 {
      EvenExtend(Child(t, dirs[0]), dirs[1..], d);
    } else {
      PivotKeeps(Child(t, dirs[0]), dirs[1..], d, b - 1);
    }
  }

  lemma {:induction false} PivotMoves<K>(t: Tree<K>, dirs: seq<nat>, d: nat)
    requires OnPath(t, dirs + [d]) && OnPath(t, dirs)
    requires At(t, dirs).Node? && (dirs == [] || At(t, dirs).bal != 0)
    ensures Pivot(t, dirs + [d], |dirs|)
  {
    if dirs == [] {
      assert [d][1..] == [];
    } else {
      assert (dirs + [d])[1..] == dirs[1..] + [d];
      PivotMoves(Child(t, dirs[0]), dirs[1..], d);
    }
  }

  /** Finishing, seen from the pivot: everything above it stays, the subtree there leans and settles. */
  lemma {:induction false} FinishAtPivot<K>(t: Tree<K>, dirs: seq<nat>, b: nat)
    requires OnPath(t, dirs) && b <= |dirs|
    ensures OnPath(t, dirs[..b]) && OnPath(At(t, dirs[..b]), dirs[b..])
    ensures Finish(t, dirs, b) ==
            Put(t, dirs[..b], Settle(Along(Lean, At(t, dirs[..b]), dirs[b..], |dirs| - b)))
  {
    if b == 0 {
      assert dirs[..0] == [] && dirs[0..] == dirs;
    } else {
      var c, rest := Child(t, dirs[0]), dirs[1..];
      FinishAtPivot(c, rest, b - 1);
      assert dirs[..b] == [dirs[0]] + rest[..b - 1] && dirs[b..] == rest[b - 1..];
      assert dirs[..b][0] == dirs[0] && dirs[..b][1..] == rest[..b - 1];
      assert At(t, dirs[..b]) == At(c, rest[..b - 1]);
    }
  }

  // ---------- the subtree at the pivot ----------

  /** Counting the new leaf along the whole path, seen from depth b. */
  lemma {:induction false} GrowAt<K>(t: Tree<K>, dirs: seq<nat>, b: nat, leaf: Tree<K>)
    requires OnPath(t, dirs) && b <= |dirs|
    ensures OnPath(t, dirs[..b]) && OnPath(At(t, dirs[..b]), dirs[b..])
    ensures OnPath(Put(t, dirs, leaf), dirs) && OnPath(Put(At(t, dirs[..b]), dirs[b..], leaf), dirs[b..])
    ensures var t2 := Along(Grow, Put(t, dirs, leaf), dirs, |dirs|);
            && OnPath(t2, dirs[..b])
            && At(t2, dirs[..b]) == Along(Grow, Put(At(t, dirs[..b]), dirs[b..], leaf), dirs[b..], |dirs| - b)
  {
    PutAt(t, dirs, leaf);
    if b == 0 {
      assert dirs[..0] == [] && dirs[0..] == dirs;
    } else {
      var c, rest := Child(t, dirs[0]), dirs[1..];
      GrowAt(c, rest, b - 1, leaf);
      assert dirs[..b] == [dirs[0]] + rest[..b - 1] && dirs[b..] == rest[b - 1..];
      assert dirs[..b][0] == dirs[0] && dirs[..b][1..] == rest[..b - 1];
      assert At(t, dirs[..b]) == At(c, rest[..b - 1]);
    }
  }

  lemma {:induction false} PivotAt<K>(t: Tree<K>, dirs: seq<nat>, b: nat, x: K, cmp: Order<K>)
    requires OnPath(t, dirs) && Pivot(t, dirs, b) && SearchPath(t, dirs, x, cmp)
    ensures OnPath(t, dirs[..b]) && OnPath(At(t, dirs[..b]), dirs[b..])
    ensures Pivot(At(t, dirs[..b]), dirs[b..], 0) && SearchPath(At(t, dirs[..b]), dirs[b..], x, cmp)
    ensures At(At(t, dirs[..b]), dirs[b..]) == At(t, dirs)
  {
    if b == 0 {
      assert dirs[..0] == [] && dirs[0..] == dirs;
    } else {
      var c, rest := Child(t, dirs[0]), dirs[1..];
      PivotAt(c, rest, b - 1, x, cmp);
      assert dirs[..b] == [dirs[0]] + rest[..b - 1] && dirs[b..] == rest[b - 1..];
      assert dirs[..b][0] == dirs[0] && dirs[..b][1..] == rest[..b - 1];
    }
  }

  lemma RebalancePossible<K>(v: Tree<K>)
    requires Avl(Settle(v)) && v.Node?
    ensures -2 < v.bal < 2 || CanRebalance(v)
  {
  }

  /** Re-balancing at the pivot finds the nodes it needs. */
  lemma PivotRebalances<K>(u: Tree<K>, ds: seq<nat>, id: nat, x: K, cmp: Order<K>)
    requires Avl(u) && Cuts(x, InOrder(u), cmp) && SearchPath(u, ds, x, cmp) && OnPath(u, ds)
    requires At(u, ds).Nil? && Pivot(u, ds, 0)
    ensures OnPath(Put(u, ds, Leaf(id, x)), ds)
    ensures var t2 := Along(Grow, Put(u, ds, Leaf(id, x)), ds, |ds|);
            OnPath(t2, ds) && var v := Along(Lean, t2, ds, |ds|); v.Node? && (-2 < v.bal < 2 || CanRebalance(v))
  {
    PutAt(u, ds, Leaf(id, x));
    AlongPath(Grow, Put(u, ds, Leaf(id, x)), ds, |ds|);
    EditedIsInsert(u, ds, 0, id, x, cmp);
    SearchPathOn(u, ds, x, cmp);
    InsertCorrect(u, id, x, cmp);
    RebalancePossible(Along(Lean, Along(Grow, Put(u, ds, Leaf(id, x)), ds, |ds|), ds, |ds|));
  }

  lemma GrownPivot<K>(t: Tree<K>, dirs: seq<nat>, b: nat, id: nat, x: K, cmp: Order<K>)
    requires Avl(t) && SearchPath(t, dirs, x, cmp) && OnPath(t, dirs) && At(t, dirs).Nil? && Pivot(t, dirs, b)
    ensures OnPath(Put(t, dirs, Leaf(id, x)), dirs) && OnPath(t, dirs[..b]) && OnPath(At(t, dirs[..b]), dirs[b..])
    ensures OnPath(Put(At(t, dirs[..b]), dirs[b..], Leaf(id, x)), dirs[b..])
    ensures var t2 := Along(Grow, Put(t, dirs, Leaf(id, x)), dirs, |dirs|);
            && OnPath(t2, dirs) && OnPath(t2, dirs[..b])
            && At(t2, dirs[..b]) == Along(Grow, Put(At(t, dirs[..b]), dirs[b..], Leaf(id, x)), dirs[b..], |dirs| - b)
            && Finish(t2, dirs, b) == Insert(t, id, x, cmp).tree
  {
    var leaf := Leaf(id, x);
    PutAt(t, dirs, leaf);
    AlongPath(Grow, Put(t, dirs, leaf), dirs, |dirs|);
    EditedIsInsert(t, dirs, b, id, x, cmp);
    GrowAt(t, dirs, b, leaf);
  }

  lemma LeanAt<K>(u: Tree<K>, ds: seq<nat>, id: nat, x: K, cmp: Order<K>)
    requires Avl(u) && Cuts(x, InOrder(u), cmp) && SearchPath(u, ds, x, cmp) && OnPath(u, ds)
    requires At(u, ds).Nil? && Pivot(u, ds, 0)
    ensures OnPath(Put(u, ds, Leaf(id, x)), ds)
    ensures var u2 := Along(Grow, Put(u, ds, Leaf(id, x)), ds, |ds|);
            OnPath(u2, ds) && At(u2, ds) == Leaf(id, x) &&
            var v := Along(Lean, u2, ds, |ds|); v.Node? && (-2 < v.bal < 2 || CanRebalance(v))
  {
    PivotRebalances(u, ds, id, x, cmp);
    PutAt(u, ds, Leaf(id, x));
    AlongPath(Grow, Put(u, ds, Leaf(id, x)), ds, |ds|);
  }

  /** The subtree the balance factors lean in, and that it can be re-balanced when it must be. */
  lemma LeanSubtree<K>(t: Tree<K>, dirs: seq<nat>, b: nat, id: nat, x: K, cmp: Order<K>)
    requires Avl(t) && Cuts(x, InOrder(t), cmp) && SearchPath(t, dirs, x, cmp) && OnPath(t, dirs)
    requires At(t, dirs).Nil? && Pivot(t, dirs, b)
    ensures OnPath(Put(t, dirs, Leaf(id, x)), dirs)
    ensures var t2 := Along(Grow, Put(t, dirs, Leaf(id, x)), dirs, |dirs|);
            && OnPath(t2, dirs) && OnPath(t2, dirs[..b]) && OnPath(At(t2, dirs[..b]), dirs[b..])
            && At(At(t2, dirs[..b]), dirs[b..]) == Leaf(id, x)
            && Finish(t2, dirs, b) == Insert(t, id, x, cmp).tree
            && var v := Along(Lean, At(t2, dirs[..b]), dirs[b..], |dirs| - b);
               v.Node? && (-2 < v.bal < 2 || CanRebalance(v))
  {
    GrownPivot(t, dirs, b, id, x, cmp);
    PivotAt(t, dirs, b, x, cmp);
    AvlAt(t, dirs[..b], x, cmp);
    var u, ds := At(t, dirs[..b]), dirs[b..];
    assert |ds| == |dirs| - b;
    LeanAt(u, ds, id, x, cmp);
  }
}
