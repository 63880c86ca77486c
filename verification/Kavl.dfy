/** The intrusive AVL tree of nfq/kavl.h: cells in memory, pointers and path arrays.  Every method is
    proved to turn the tree held in memory into the tree module AvlTree computes.

    Path arrays are sequences here; that they never exceed KAVL_MAX_DEPTH entries is proved.
 */
module Kavl {
  import opened AvlTree
  import opened KavlHeap
  import opened KavlInsert
  import opened KavlErase

  const KAVL_MAX_DEPTH := 64
  const UNSIGNED_LIMIT := 0x1_0000_0000

  lemma RotateIds<K>(t: Tree<K>, dir: nat)
    requires dir <= 1 && t.Node? && Child(t, 1 - dir).Node? && Distinct(t)
    ensures Distinct(Rotate1(t, dir)) && Ids(Rotate1(t, dir)) == Ids(t)
    ensures Child(Child(t, 1 - dir), dir).Node? ==> Distinct(Rotate2(t, dir)) && Ids(Rotate2(t, dir)) == Ids(t)
  {
    var q := Child(t, 1 - dir);
    if Child(q, dir).Node? {
      var r := Child(q, dir);
      assert Distinct(r);
    }
  }

  /** The cells a rotation reads. */
  lemma GrandChildren<K>(mem: Memory<K>, t: Tree<K>, opp: nat)
    requires opp <= 1 && t.Node? && Child(t, opp).Node? && Holds(mem, t) && Distinct(t)
    ensures var q := Child(t, opp);
            && t.id in mem && mem[t.id] == CellOf(t) && q.id in mem && mem[q.id] == CellOf(q)
            && Holds(mem, q) && Distinct(q) && q.id != t.id && Ids(q) <= Ids(t) - {t.id}
            && (q.left.Node? ==> q.left.id in mem && q.left.id in Ids(q) && mem[q.left.id] == CellOf(q.left) && q.left.id != NULL && q.left.id != q.id)
            && (q.right.Node? ==> q.right.id in mem && q.right.id in Ids(q) && mem[q.right.id] == CellOf(q.right) && q.right.id != NULL && q.right.id != q.id)
  {
    var q := Child(t, opp);
    assert Holds(mem, q) && Distinct(q) && q.id in Ids(q);
    if q.left.Node? {
      assert Holds(mem, q.left) && Distinct(q.left) && q.left.id in Ids(q.left);
    }
    if q.right.Node? {
      assert Holds(mem, q.right) && Distinct(q.right) && q.right.id in Ids(q.right);
    }
  }

  lemma HoldsRotate1<K>(mem: Memory<K>, mem': Memory<K>, t: Tree<K>, dir: nat)
    requires dir <= 1 && t.Node? && Child(t, 1 - dir).Node? && Holds(mem, t) && Distinct(t)
    requires var q' := Rotate1(t, dir); var p' := Child(q', dir);
             && Same(mem, mem', {t.id, q'.id})
             && t.id in mem' && mem'[t.id] == CellOf(p') && q'.id in mem' && mem'[q'.id] == CellOf(q')
    ensures Holds(mem', Rotate1(t, dir))
  {
    var q := Child(t, 1 - dir);
    GrandChildren(mem, t, 1 - dir);
    HoldsFrame(mem, mem', Child(t, dir), {t.id, q.id});
    HoldsFrame(mem, mem', Child(q, dir), {t.id, q.id});
    HoldsFrame(mem, mem', Child(q, 1 - dir), {t.id, q.id});
  }

  lemma HoldsRotate2<K>(mem: Memory<K>, mem': Memory<K>, t: Tree<K>, dir: nat)
    requires dir <= 1 && t.Node? && Child(t, 1 - dir).Node? && Child(Child(t, 1 - dir), dir).Node?
    requires Holds(mem, t) && Distinct(t)
    requires var r' := Rotate2(t, dir); var p', q' := Child(r', dir), Child(r', 1 - dir);
             && p'.Node? && q'.Node? && Same(mem, mem', {r'.id, p'.id, q'.id})
             && p'.id in mem' && mem'[p'.id] == CellOf(p') && q'.id in mem' && mem'[q'.id] == CellOf(q')
             && r'.id in mem' && mem'[r'.id] == CellOf(r')
    ensures Holds(mem', Rotate2(t, dir))
  {
    var q := Child(t, 1 - dir);
    var r := Child(q, dir);
    GrandChildren(mem, t, 1 - dir);
    GrandChildren(mem, q, dir);
    var touched := {t.id, q.id, r.id};
    HoldsFrame(mem, mem', Child(t, dir), touched);
    HoldsFrame(mem, mem', Child(q, 1 - dir), touched);
    HoldsFrame(mem, mem', Child(r, dir), touched);
    HoldsFrame(mem, mem', Child(r, 1 - dir), touched);
  }

  /** The locals of the descent: directions from the pivot on, the pivot and its parent, the last node
      and the direction taken there. */
  datatype Trail = Trail(stack: seq<nat>, bp: nat, bq: nat, q: nat, which: nat)

  ghost predicate OnWay<K>(t: Tree<K>, x: K, cmp: Order<K>, dirs: seq<nat>, path: seq<nat>, tr: Trail, b: nat) {
    && SearchPath(t, dirs, x, cmp) && OnPath(t, dirs) && PathIds(t, dirs, path)
    && b <= |dirs| && tr.stack == dirs[b..]
    && if dirs == [] then tr.q == NULL && tr.bp == Ptr(t) && tr.bq == NULL
       else
         && tr.q == path[|dirs| - 1] && tr.which == dirs[|dirs| - 1]
         && Pivot(t, dirs, b) && tr.bp == path[b] && tr.bq == if b == 0 then NULL else path[b - 1]
  }

  /** One step of the descent. */
  lemma OnWayStep<K>(t: Tree<K>, x: K, cmp: Order<K>, dirs: seq<nat>, path: seq<nat>, tr: Trail, b: nat)
    requires OnWay(t, x, cmp, dirs, path, tr, b) && At(t, dirs).Node? && cmp(x, At(t, dirs).key) != 0
    ensures var n := At(t, dirs);
            var d := Dir(x, n, cmp);
            && OnPath(t, dirs + [d]) && At(t, dirs + [d]) == Child(n, d)
            && OnWay(t, x, cmp, dirs + [d], path + [n.id],
                     if n.bal != 0 then Trail([d], n.id, tr.q, n.id, d) else Trail(tr.stack + [d], tr.bp, tr.bq, n.id, d),
                     if n.bal != 0 then |dirs| else b)
  {
    var n := At(t, dirs);
    var d := Dir(x, n, cmp);
    SearchPathExtend(t, dirs, x, cmp);
    PathIdsExtend(t, dirs, path, d);
    if dirs == [] || n.bal != 0 {
      PivotMoves(t, dirs, d);
    } else {
      PivotKeeps(t, dirs, d, b);
    }
  }

  /** The subtree at the pivot can lean towards the new leaf x and, if need be, be re-balanced. */
  ghost predicate ReadyToLean<K>(t1: Tree<K>, dirs: seq<nat>, b: nat, x: nat) {
    OnPath(t1, dirs) && b <= |dirs| &&
    var t2 := Along(Grow, t1, dirs, |dirs|);
    && OnPath(t2, dirs) && OnPath(t2, dirs[..b]) && OnPath(At(t2, dirs[..b]), dirs[b..])
    && At(At(t2, dirs[..b]), dirs[b..]).Node? && At(At(t2, dirs[..b]), dirs[b..]).id == x
    && var v := Along(Lean, At(t2, dirs[..b]), dirs[b..], |dirs| - b);
       v.Node? && (-2 < v.bal < 2 || CanRebalance(v))
  }

  class Kavl<K> {
    var mem: Memory<K>
    var root: nat
    const cmp: Order<K>
    ghost var tree: Tree<K>

    ghost predicate Valid()
      reads this
    {
      && Holds(mem, tree) && root == Ptr(tree) && Distinct(tree)
      && Avl(tree) && Size(tree) < UNSIGNED_LIMIT
    }

    /** An empty tree over the given memory. */
    constructor (mem: Memory<K>, cmp: Order<K>)
      ensures Valid() && tree == Nil && this.mem == mem && this.cmp == cmp
    {
      this.mem, this.cmp, this.root, this.tree := mem, cmp, NULL, Nil;
    }

    /** kavl_size_child */
    function SizeOf(p: nat): int
      requires p != NULL ==> p in mem
      reads this
    {
      if p != NULL then mem[p].size else 0
    }

    /** kavl_find: the node that compares equal, or NULL, and the number of elements up to x. */
    method Find(x: K) returns (p: nat, cnt: int)
      requires Valid() && Cuts(x, InOrder(tree), cmp)
      ensures p == Ptr(AvlTree.Find(tree, x, cmp)) && cnt == Rank(tree, x, cmp)
      ensures Found(AvlTree.Find(tree, x, cmp), cnt, x, InOrder(tree), cmp)
    {
      FindCorrect(tree, x, cmp);
      p, cnt := root, 0;
      ghost var t := tree;
      while p != NULL
        invariant Holds(mem, t) && p == Ptr(t) && Distinct(t)
        invariant AvlTree.Find(t, x, cmp) == AvlTree.Find(tree, x, cmp)
        invariant cnt + Rank(t, x, cmp) == Rank(tree, x, cmp)
        decreases t
      {
        var c := cmp(x, mem[p].key);
        if c >= 0 {
          cnt := cnt + SizeOf(mem[p].left) + 1;
        }
        if c < 0 {
          p, t := mem[p].left, t.left;
        } else if c > 0 {
          p, t := mem[p].right, t.right;
        } else {
          break;
        }
      }
    }

    /** kavl_rotate1 */
    method KavlRotate1(p: nat, dir: nat, ghost t: Tree<K>) returns (q: nat)
      requires dir <= 1 && t.Node? && Child(t, 1 - dir).Node?
      requires Holds(mem, t) && p == Ptr(t) && Distinct(t)
      modifies this`mem
      ensures Holds(mem, Rotate1(t, dir)) && q == Ptr(Rotate1(t, dir))
      ensures Same(old(mem), mem, Ids(t)) && mem.Keys == old(mem).Keys
    {
      var opp := 1 - dir;
      q := GetChild(mem[p], opp);
      var sizeP := mem[p].size;
      GrandChildren(mem, t, opp);
      var sizeX := SizeOf(GetChild(mem[q], dir));
      mem := mem[p := mem[p].(size := mem[p].size - (mem[q].size - sizeX))];
      mem := mem[q := mem[q].(size := sizeP)];
      mem := mem[p := SetChild(mem[p], opp, GetChild(mem[q], dir))];
      mem := mem[q := SetChild(mem[q], dir, p)];
      HoldsRotate1(old(mem), mem, t, dir);
    }

    /** The size and link updates of kavl_rotate2. */
    method SwingLinks(p: nat, q: nat, r: nat, dir: nat, sizeX: int)
      requires dir <= 1 && p != q && q != r && p != r && p in mem && q in mem && r in mem
      modifies this`mem
      ensures mem.Keys == old(mem).Keys && Same(old(mem), mem, {p, q, r})
      ensures var m := old(mem); var cp, cq, cr := m[p], m[q], m[r]; var opp := 1 - dir;
              && mem[p] == SetChild(cp.(size := cp.size - (cq.size - sizeX)), opp, GetChild(cr, dir))
              && mem[q] == SetChild(cq.(size := cq.size - (sizeX + 1)), dir, GetChild(cr, opp))
              && mem[r] == SetChild(SetChild(cr.(size := cp.size), dir, p), opp, q)
    {
      var opp := 1 - dir;
      mem := mem[r := mem[r].(size := mem[p].size)];
      mem := mem[p := mem[p].(size := mem[p].size - (mem[q].size - sizeX))];
      mem := mem[q := mem[q].(size := mem[q].size - (sizeX + 1))];
      mem := mem[p := SetChild(mem[p], opp, GetChild(mem[r], dir))];
      mem := mem[r := SetChild(mem[r], dir, p)];
      mem := mem[q := SetChild(mem[q], dir, GetChild(mem[r], opp))];
      mem := mem[r := SetChild(mem[r], opp, q)];
    }

    /** The balance factor updates of kavl_rotate2. */
    method SetBalances(p: nat, q: nat, r: nat, dir: nat)
      requires dir <= 1 && p != q && q != r && p != r && p in mem && q in mem && r in mem
      modifies this`mem
      ensures mem.Keys == old(mem).Keys && Same(old(mem), mem, {p, q, r})
      ensures var m := old(mem); var b1 := if dir == 0 then 1 else -1;
              && mem[p] == m[p].(bal := if m[r].bal == b1 then -b1 else 0)
              && mem[q] == m[q].(bal := if m[r].bal == b1 || m[r].bal == 0 then 0 else b1)
              && mem[r] == m[r].(bal := 0)
    {
      var b1 := if dir == 0 then 1 else -1;
      if mem[r].bal == b1 {
        mem := mem[q := mem[q].(bal := 0)];
        mem := mem[p := mem[p].(bal := -b1)];
      } else if mem[r].bal == 0 {
        mem := mem[q := mem[q].(bal := 0)];
        mem := mem[p := mem[p].(bal := 0)];
      } else {
        mem := mem[q := mem[q].(bal := b1)];
        mem := mem[p := mem[p].(bal := 0)];
      }
      mem := mem[r := mem[r].(bal := 0)];
    }

    /** Sizes, links and balance factors together. */
    method SwingAround(p: nat, q: nat, r: nat, dir: nat, sizeX: int)
      requires dir <= 1 && p != q && q != r && p != r && p in mem && q in mem && r in mem
      modifies this`mem
      ensures mem.Keys == old(mem).Keys && Same(old(mem), mem, {p, q, r})
      ensures var m := old(mem); var cp, cq, cr := m[p], m[q], m[r];
              var opp, b1 := 1 - dir, if dir == 0 then 1 else -1;
              var balP, balQ := if cr.bal == b1 then -b1 else 0, if cr.bal == b1 || cr.bal == 0 then 0 else b1;
              && mem[p] == SetChild(cp.(size := cp.size - (cq.size - sizeX), bal := balP), opp, GetChild(cr, dir))
              && mem[q] == SetChild(cq.(size := cq.size - (sizeX + 1), bal := balQ), dir, GetChild(cr, opp))
              && mem[r] == SetChild(SetChild(cr.(size := cp.size, bal := 0), dir, p), opp, q)
    {
      SwingLinks(p, q, r, dir, sizeX);
      SetBalances(p, q, r, dir);
    }

    /** kavl_rotate2 */
    method KavlRotate2(p: nat, dir: nat, ghost t: Tree<K>) returns (r: nat)
      requires dir <= 1 && t.Node? && Child(t, 1 - dir).Node? && Child(Child(t, 1 - dir), dir).Node?
      requires Holds(mem, t) && p == Ptr(t) && Distinct(t)
      modifies this`mem
      ensures Holds(mem, Rotate2(t, dir)) && r == Ptr(Rotate2(t, dir))
      ensures Same(old(mem), mem, Ids(t)) && mem.Keys == old(mem).Keys
    {
      var opp := 1 - dir;
      var q := GetChild(mem[p], opp);
      r := GetChild(mem[q], dir);
      GrandChildren(mem, t, opp);
      GrandChildren(mem, Child(t, opp), dir);
      var sizeX := SizeOf(GetChild(mem[r], dir));
      SwingAround(p, q, r, dir, sizeX);
      HoldsRotate2(old(mem), mem, t, dir);
    }

    // ---------- insertion ----------

    /** The descent of kavl_insert: the equal node if there is one, else the path to the free place, the pivot
        bp below which all balance factors are zero, its parent bq, and the directions from bp on. */
    method Descend(x: nat)
      returns (found: nat, cnt: int, path: seq<nat>, stack: seq<nat>, bp: nat, bq: nat, q: nat, which: nat,
               ghost dirs: seq<nat>, ghost b: nat)
      requires Valid() && x in mem && Cuts(mem[x].key, InOrder(tree), cmp)
      ensures cnt == Rank(tree, mem[x].key, cmp)
      ensures found == Ptr(AvlTree.Find(tree, mem[x].key, cmp))
      ensures found == NULL ==> AvlTree.Find(tree, mem[x].key, cmp).Nil?
      ensures |path| <= 45 < KAVL_MAX_DEPTH
      ensures OnWay(tree, mem[x].key, cmp, dirs, path, Trail(stack, bp, bq, q, which), b)
      ensures found == NULL ==> At(tree, dirs).Nil?
    {
      var key := mem[x].key;
      bp, bq := root, NULL;
      var p := bp;
      q, path, stack, cnt, which := bq, [], [], 0, 0;
      dirs, b := [], 0;
      HeightFits(tree);
      FindCorrect(tree, key, cmp);
      while p != NULL
        invariant OnWay(tree, key, cmp, dirs, path, Trail(stack, bp, bq, q, which), b)
        invariant p == Ptr(At(tree, dirs)) && |dirs| + Height(At(tree, dirs)) <= Height(tree)
        invariant Holds(mem, At(tree, dirs)) && Distinct(At(tree, dirs))
        invariant AvlTree.Find(tree, key, cmp) == AvlTree.Find(At(tree, dirs), key, cmp)
        invariant cnt + Rank(At(tree, dirs), key, cmp) == Rank(tree, key, cmp)
        decreases Height(At(tree, dirs))
      {
        ghost var t := At(tree, dirs);
        var c := cmp(key, mem[p].key);
        if c >= 0 {
          cnt := cnt + SizeOf(mem[p].left) + 1;
        }
        if c == 0 {
          found := p;
          return;
        }
        OnWayStep(tree, key, cmp, dirs, path, Trail(stack, bp, bq, q, which), b);
        if mem[p].bal != 0 {
          bq, bp, stack, b := q, p, [], |dirs|;
        }
        which := if c > 0 then 1 else 0;
        stack := stack + [which];
        path, dirs := path + [p], dirs + [which];
        SearchPathOn(tree, dirs, key, cmp);
        q, p := p, GetChild(mem[p], which);
      }
      found := NULL;
    }

    /** for (i = 0; i < path_len; ++i) ++path[i]->size */
    method BumpSizes(path: seq<nat>, ghost t: Tree<K>, ghost dirs: seq<nat>)
      requires Holds(mem, t) && Distinct(t) && OnPath(t, dirs) && PathIds(t, dirs, path)
      modifies this`mem
      ensures Holds(mem, Along(Grow, t, dirs, |dirs|))
      ensures Same(old(mem), mem, Ids(t)) && mem.Keys == old(mem).Keys
    {
      var i := 0;
      while i < |path|
        invariant 0 <= i <= |path| == |dirs|
        invariant Holds(mem, Along(Grow, t, dirs, i))
        invariant Same(old(mem), mem, Ids(t)) && mem.Keys == old(mem).Keys
      {
        EditStep(mem, Grow, t, dirs, path, i);
        mem := mem[path[i] := mem[path[i]].(size := mem[path[i]].size + 1)];
        i := i + 1;
      }
    }

    /** The balance factor updates from bp down to the new node. */
    method LeanLoop(bp: nat, x: nat, stack: seq<nat>, ghost t: Tree<K>, ghost path: seq<nat>)
      requires Holds(mem, t) && Distinct(t) && OnPath(t, stack) && PathIds(t, stack, path)
      requires bp == Ptr(t) && At(t, stack).Node? && x == At(t, stack).id
      modifies this`mem
      ensures Holds(mem, Along(Lean, t, stack, |stack|))
      ensures Same(old(mem), mem, Ids(t)) && mem.Keys == old(mem).Keys
    {
      var p, top := bp, 0;
      assert stack[..0] == [];
      while p != x
        invariant 0 <= top <= |stack|
        invariant top < |stack| ==> p == path[top]
        invariant top == |stack| ==> p == x
        invariant Holds(mem, Along(Lean, t, stack, top))
        invariant Same(old(mem), mem, Ids(t)) && mem.Keys == old(mem).Keys
        decreases |stack| - top
      {
        EditStep(mem, Lean, t, stack, path, top);
        PathIdsAt(t, stack, path, top);
        if stack[top] == 0 {
          mem := mem[p := mem[p].(bal := mem[p].bal - 1)];
        } else {
          mem := mem[p := mem[p].(bal := mem[p].bal + 1)];
        }
        p := GetChild(mem[p], stack[top]);
        top := top + 1;
        if top < |stack| {
          PathIdsAt(t, stack, path, top);
        } else {
          assert stack[..top] == stack;
        }
      }
      if top < |stack| {
        NotYetThere(t, stack, path, top);
      }
    }

    /** The re-balance step at bp. */
    method RotateAt(bp: nat, ghost t: Tree<K>) returns (r: nat)
      requires Holds(mem, t) && Distinct(t) && t.Node? && bp == Ptr(t) && CanRebalance(t)
      modifies this`mem
      ensures Holds(mem, Rebalance(t)) && r == Ptr(Rebalance(t))
      ensures Same(old(mem), mem, Ids(t)) && mem.Keys == old(mem).Keys
      ensures Distinct(Rebalance(t)) && Ids(Rebalance(t)) == Ids(t)
    {
      var which := if mem[bp].bal < 0 then 1 else 0;
      var b1 := if which == 0 then 1 else -1;
      var q := GetChild(mem[bp], 1 - which);
      RotateIds(t, which);
      GrandChildren(mem, t, 1 - which);
      if mem[q].bal == b1 {
        r := KavlRotate1(bp, which, t);
        ghost var u := Rotate1(t, which);
        SetBoth(mem, u, which, 0, 0);
        mem := mem[q := mem[q].(bal := 0)];
        mem := mem[bp := mem[bp].(bal := 0)];
      } else {
        r := KavlRotate2(bp, which, t);
      }
    }

    /** The end of kavl_insert: bp has leant; re-balance it if it leans too far and hang the result under bq. */
    method SettlePivot(bp: nat, bq: nat, ghost m2: Memory<K>, ghost t2: Tree<K>, ghost dirs: seq<nat>,
                       ghost path: seq<nat>, ghost b: nat, ghost v: Tree<K>)
      requires Holds(m2, t2) && Distinct(t2) && root == Ptr(t2)
      requires OnPath(t2, dirs) && PathIds(t2, dirs, path) && b < |dirs| && OnPath(t2, dirs[..b])
      requires bp == path[b] && bq == if b == 0 then NULL else path[b - 1]
      requires Same(m2, mem, Ids(At(t2, dirs[..b])))
      requires Holds(mem, v) && Distinct(v) && Ids(v) == Ids(At(t2, dirs[..b])) && v.Node? && v.id == bp
      requires -2 < v.bal < 2 || CanRebalance(v)
      modifies this
      ensures tree == Put(t2, dirs[..b], Settle(v))
      ensures Holds(mem, tree) && root == Ptr(tree) && Distinct(tree) && Ids(tree) == Ids(t2)
      ensures Same(old(mem), mem, Ids(t2)) && mem.Keys == old(mem).Keys
    {
      AtIds(t2, dirs[..b]);
      PathIdsAt(t2, dirs, path, b);
      if -2 < mem[bp].bal < 2 {
        HoldsRelink(m2, mem, t2, dirs[..b], v);
        RelinkedSame(m2, mem, t2, dirs[..b], v);
        RootPtr(t2, dirs[..b], v);
        tree := Put(t2, dirs[..b], v);
        return;
      }
      ghost var s := Rebalance(v);
      var r := RotateAt(bp, v);
      ghost var m3 := mem;
      HoldsRelink(m2, m3, t2, dirs[..b], s);
      RootPtr(t2, dirs[..b], s);
      HangUnder(bp, bq, r, m2, t2, dirs, path, b, s);
      tree := Put(t2, dirs[..b], s);
    }

    /** The re-balanced subtree goes where its old root bp was. */
    method HangUnder(bp: nat, bq: nat, r: nat, ghost m2: Memory<K>, ghost t2: Tree<K>, ghost dirs: seq<nat>,
                     ghost path: seq<nat>, ghost b: nat, ghost s: Tree<K>)
      requires Holds(m2, t2) && Distinct(t2) && root == Ptr(t2)
      requires OnPath(t2, dirs) && PathIds(t2, dirs, path) && b < |dirs| && OnPath(t2, dirs[..b])
      requires bp == path[b] && bq == if b == 0 then NULL else path[b - 1]
      requires Same(m2, mem, Ids(At(t2, dirs[..b]))) && r == Ptr(s)
      modifies this`mem, this`root
      ensures mem == Relinked(old(mem), t2, dirs[..b], s)
      ensures Same(old(mem), mem, Ids(t2)) && mem.Keys == old(mem).Keys
      ensures root == if b == 0 then Ptr(s) else old(root)
    {
      if b != 0 {
        OutsideCell(m2, mem, t2, dirs, path, b);
      }
      if bq == NULL {
        root := r;
      } else {
        WhichChild(m2, t2, dirs, path, b);
        mem := mem[bq := SetChild(mem[bq], if bp != mem[bq].left then 1 else 0, r)];
      }
    }

    /** After the leaf is linked: count it along the path, lean from the pivot down, re-balance there. */
    method CountAndLean(x: nat, path: seq<nat>, stack: seq<nat>, bp: nat, bq: nat, ghost dirs: seq<nat>, ghost b: nat)
      requires Holds(mem, tree) && root == Ptr(tree) && Distinct(tree)
      requires OnPath(tree, dirs) && PathIds(tree, dirs, path) && b < |dirs| && stack == dirs[b..]
      requires bp == path[b] && bq == if b == 0 then NULL else path[b - 1]
      requires ReadyToLean(tree, dirs, b, x)
      modifies this
      ensures OnPath(Along(Grow, old(tree), dirs, |dirs|), dirs)
      ensures tree == Finish(Along(Grow, old(tree), dirs, |dirs|), dirs, b)
      ensures Holds(mem, tree) && root == Ptr(tree) && Distinct(tree) && Ids(tree) == Ids(old(tree))
      ensures Same(old(mem), mem, Ids(tree)) && mem.Keys == old(mem).Keys
    {
      ghost var t1, t2 := tree, Along(Grow, tree, dirs, |dirs|);
      BumpSizes(path, t1, dirs);
      ghost var m2 := mem;
      AlongPath(Grow, t1, dirs, |dirs|);
      PathIdsAlong(Grow, t1, dirs, path, |dirs|);
      PathIdsDrop(t2, dirs, path, b);
      HoldsAt(mem, t2, dirs[..b]);
      AtIds(t2, dirs[..b]);
      ghost var u := At(t2, dirs[..b]);
      LeanLoop(bp, x, stack, u, path[b..]);
      AlongPath(Lean, u, stack, |stack|);
      FinishAtPivot(t2, dirs, b);
      SettlePivot(bp, bq, m2, t2, dirs, path, b, Along(Lean, u, stack, |stack|));
    }

    /** Link the new leaf under q, or as the root. */
    method LinkLeaf(x: nat, q: nat, which: nat, ghost dirs: seq<nat>)
      requires Valid() && x in mem && x != NULL && x !in Ids(tree)
      requires OnPath(tree, dirs) && At(tree, dirs).Nil?
      requires dirs == [] ==> q == NULL
      requires dirs != [] ==> OnPath(tree, dirs[..|dirs| - 1]) && At(tree, dirs[..|dirs| - 1]).Node?
                              && q == At(tree, dirs[..|dirs| - 1]).id && which == dirs[|dirs| - 1]
      modifies this
      ensures tree == Put(old(tree), dirs, Leaf(x, old(mem)[x].key))
      ensures Holds(mem, tree) && root == Ptr(tree) && Distinct(tree) && Ids(tree) == Ids(old(tree)) + {x}
      ensures Same(old(mem), mem, Ids(tree)) && mem.Keys == old(mem).Keys
    {
      ghost var m0, t0, leaf := mem, tree, Leaf(x, mem[x].key);
      mem := mem[x := mem[x].(bal := 0, size := 1, left := NULL, right := NULL)];
      ghost var m1 := mem;
      HoldsRelink(m0, m1, t0, dirs, leaf);
      if dirs != [] {
        ParentOf(t0, dirs);
        AtIds(t0, dirs[..|dirs| - 1]);
        assert At(t0, dirs[..|dirs| - 1]).id in Ids(At(t0, dirs[..|dirs| - 1]));
        assert Distinct(At(t0, dirs[..|dirs| - 1]));
        PutPtr(t0, dirs, leaf);
      }
      if q == NULL {
        root := x;
      } else {
        mem := mem[q := SetChild(mem[q], which, x)];
      }
      assert mem == Relinked(m1, t0, dirs, leaf);
      tree := Put(t0, dirs, leaf);
    }

    /** kavl_insert: an equal node is returned and nothing changes; otherwise the tree in memory becomes the
        balanced tree with x in its place.  Cells outside the tree are not touched. */
    method Insert(x: nat) returns (r: nat, cnt: int)
      requires Valid() && x in mem && x != NULL && x !in Ids(tree)
      requires Cuts(mem[x].key, InOrder(tree), cmp)
      requires Size(tree) + 1 < UNSIGNED_LIMIT
      modifies this
      ensures Valid() && mem.Keys == old(mem).Keys
      ensures Same(old(mem), mem, Ids(old(tree)) + {x})
      ensures cnt == Rank(old(tree), old(mem)[x].key, cmp)
      ensures var f := AvlTree.Find(old(tree), old(mem)[x].key, cmp);
              if f.Node? then r == f.id && tree == old(tree) && mem == old(mem) && root == old(root)
              else r == x && tree == AvlTree.Insert(old(tree), x, old(mem)[x].key, cmp).tree
                   && Ids(tree) == Ids(old(tree)) + {x}
    {
      ghost var m0, t0, key := mem, tree, mem[x].key;
      var found, path, stack, bp, bq, q, which;
      ghost var dirs, b;
      found, cnt, path, stack, bp, bq, q, which, dirs, b := Descend(x);
      if found != NULL {
        return found, cnt;
      }
      if dirs != [] {
        ParentAndPivot(t0, dirs, path, b);
      }
      InsertCorrect(t0, x, key, cmp);
      LinkLeaf(x, q, which, dirs);
      if bp == NULL {
        return x, cnt;
      }
      MendGrown(x, path, stack, bp, bq, dirs, b, t0, key);
      r := x;
    }

    /** The last node of the way is the parent of the new leaf, and the pivot is a node. */
    static lemma ParentAndPivot(t0: Tree<K>, dirs: seq<nat>, path: seq<nat>, b: nat)
      requires Distinct(t0) && OnPath(t0, dirs) && PathIds(t0, dirs, path) && dirs != [] && b < |dirs|
      ensures |path| == |dirs| && OnPath(t0, dirs[..|dirs| - 1]) && At(t0, dirs[..|dirs| - 1]).Node?
      ensures path[|dirs| - 1] == At(t0, dirs[..|dirs| - 1]).id && path[b] != NULL
    {
      PathIdsAt(t0, dirs, path, |dirs| - 1);
      PathIdsAt(t0, dirs, path, b);
      AtIds(t0, dirs[..b]);
      assert Distinct(At(t0, dirs[..b]));
    }

    /** The leaf is linked into a tree that was not empty: the rest of the insertion. */
    method MendGrown(x: nat, path: seq<nat>, stack: seq<nat>, bp: nat, bq: nat, ghost dirs: seq<nat>, ghost b: nat, ghost t0: Tree<K>,
                  ghost key: K)
      requires Avl(t0) && Cuts(key, InOrder(t0), cmp) && SearchPath(t0, dirs, key, cmp) && OnPath(t0, dirs) && At(t0, dirs).Nil?
      requires Pivot(t0, dirs, b) && PathIds(t0, dirs, path) && b < |dirs| && stack == dirs[b..]
      requires bp == path[b] && bq == if b == 0 then NULL else path[b - 1]
      requires tree == Put(t0, dirs, Leaf(x, key)) && Holds(mem, tree) && root == Ptr(tree) && Distinct(tree)
      modifies this
      ensures tree == AvlTree.Insert(t0, x, key, cmp).tree && Holds(mem, tree) && root == Ptr(tree) && Distinct(tree)
      ensures Ids(tree) == Ids(old(tree)) && Same(old(mem), mem, Ids(tree)) && mem.Keys == old(mem).Keys
    {
      PathIdsPut(t0, dirs, path, Leaf(x, key));
      LeanSubtree(t0, dirs, b, x, key, cmp);
      CountAndLean(x, path, stack, bp, bq, dirs, b);
    }

    // ---------- deletion ----------

    /** The search of kavl_erase.  The `fake` node above the root is represented by the root pointer itself,
        so the path starts at the root. */
    method SearchDown(x: K) returns (p: nat, cnt: int, path: seq<nat>, dirs: seq<nat>)
      requires Valid() && Cuts(x, InOrder(tree), cmp)
      ensures p == Ptr(AvlTree.Find(tree, x, cmp))
      ensures p == NULL ==> cnt == 0 && AvlTree.Find(tree, x, cmp).Nil?
      ensures SearchPath(tree, dirs, x, cmp) && OnPath(tree, dirs) && PathIds(tree, dirs, path)
      ensures |path| + Height(At(tree, dirs)) <= 45 < KAVL_MAX_DEPTH
      ensures p != NULL ==> cnt == Rank(tree, x, cmp) && At(tree, dirs).Node? && At(tree, dirs).id == p
                            && cmp(x, At(tree, dirs).key) == 0
    {
      p, cnt, path, dirs := root, 0, [], [];
      HeightFits(tree);
      while true
        invariant SearchPath(tree, dirs, x, cmp) && OnPath(tree, dirs) && PathIds(tree, dirs, path)
        invariant p == Ptr(At(tree, dirs)) && |dirs| + Height(At(tree, dirs)) <= Height(tree)
        invariant Holds(mem, At(tree, dirs)) && Distinct(At(tree, dirs))
        invariant AvlTree.Find(tree, x, cmp) == AvlTree.Find(At(tree, dirs), x, cmp)
        invariant cnt + Rank(At(tree, dirs), x, cmp) == Rank(tree, x, cmp)
        decreases Height(At(tree, dirs))
      {
        ghost var t := At(tree, dirs);
        if p == NULL {
          return NULL, 0, path, dirs;
        }
        var c := cmp(x, mem[p].key);
        if c == 0 {
          break;
        }
        SearchPathExtend(tree, dirs, x, cmp);
        PathIdsExtend(tree, dirs, path, Dir(x, t, cmp));
        var which := if c > 0 then 1 else 0;
        if c > 0 {
          cnt := cnt + SizeOf(mem[p].left) + 1;
        }
        path, dirs := path + [p], dirs + [which];
        SearchPathOn(tree, dirs, x, cmp);
        p := GetChild(mem[p], which);
      }
      cnt := cnt + SizeOf(mem[p].left) + 1;
    }

    /** --path[i]->size for every node of the path */
    method DropSizes(path: seq<nat>, ghost t: Tree<K>, ghost dirs: seq<nat>)
      requires Holds(mem, t) && Distinct(t) && OnPath(t, dirs) && PathIds(t, dirs, path)
      modifies this`mem
      ensures Holds(mem, Along(Wither, t, dirs, |dirs|))
      ensures Same(old(mem), mem, Ids(t)) && mem.Keys == old(mem).Keys
    {
      var i := 0;
      while i < |path|
        invariant 0 <= i <= |path| == |dirs|
        invariant Holds(mem, Along(Wither, t, dirs, i))
        invariant Same(old(mem), mem, Ids(t)) && mem.Keys == old(mem).Keys
      {
        EditStep(mem, Wither, t, dirs, path, i);
        mem := mem[path[i] := mem[path[i]].(size := mem[path[i]].size - 1)];
        i := i + 1;
      }
    }

    /** The loop to the leftmost node of the right subtree. */
    method FindLeftmost(q: nat, ghost t: Tree<K>) returns (r: nat, path: seq<nat>, ghost k: nat)
      requires Holds(mem, t) && Distinct(t) && t.Node? && q == Ptr(t)
      ensures Leftmost(t, k) && OnPath(t, Zeros(k)) && PathIds(t, Zeros(k), path)
      ensures At(t, Zeros(k)).Node? && r == At(t, Zeros(k)).id && |path| < Height(t)
    {
      r, path, k := q, [], 0;
      ghost var u := t;
      assert Zeros(0) == [];
      while mem[r].left != NULL
        invariant OnPath(t, Zeros(k)) && PathIds(t, Zeros(k), path) && u == At(t, Zeros(k))
        invariant Holds(mem, u) && Distinct(u) && u.Node? && r == u.id
        invariant forall m: nat :: Leftmost(u, m) ==> Leftmost(t, k + m)
        invariant k + Height(u) <= Height(t)
        decreases u
      {
        PathIdsExtend(t, Zeros(k), path, 0);
        assert Zeros(k) + [0] == Zeros(k + 1);
        path := path + [r];
        LeftmostShift(t, u, k);
        u, r, k := u.left, mem[r].left, k + 1;
      }
      assert Leftmost(u, 0);
      LeftmostAt(t, k);
    }

    /** path[d-1]->p[dir[d-1]] = s, where path[0] of the original is the fake node above the root. */
    method SetLink(path: seq<nat>, dirs: seq<nat>, p: nat, ghost t: Tree<K>, ghost s: Tree<K>)
      requires OnPath(t, dirs) && PathIds(t, dirs, path) && p == Ptr(s)
      requires dirs != [] ==> path[|dirs| - 1] in mem
      modifies this`mem, this`root
      ensures mem == Relinked(old(mem), t, dirs, s) && mem.Keys == old(mem).Keys
      ensures root == if dirs == [] then Ptr(s) else old(root)
    {
      if |dirs| == 0 {
        root := p;
      } else {
        RelinkedIs(mem, t, dirs, path, s);
        var q := path[|dirs| - 1];
        mem := mem[q := SetChild(mem[q], dirs[|dirs| - 1], p)];
      }
    }

    /** Cut the leftmost node r out of the right subtree t and discount it along the way. */
    method CutLeftmost(r: nat, path: seq<nat>, ghost t: Tree<K>, ghost k: nat)
      requires Holds(mem, t) && Distinct(t) && Leftmost(t, k) && 0 < k == |path|
      requires OnPath(t, Zeros(k)) && PathIds(t, Zeros(k), path) && At(t, Zeros(k)).Node? && r == At(t, Zeros(k)).id
      modifies this`mem
      ensures Holds(mem, Spliced(t, k))
      ensures Same(old(mem), mem, Ids(t) - {r}) && mem.Keys == old(mem).Keys
    {
      ghost var m0, z := mem, Zeros(k);
      ghost var u := At(t, z);
      HoldsAt(mem, t, z);
      AtIds(t, z);
      SplicedIds(t, k);
      PathIdsAt(t, z, path, k - 1);
      AtIds(t, z[..k - 1]);
      HoldsAt(mem, t, z[..k - 1]);
      var q := path[|path| - 1];
      assert q in Ids(At(t, z[..k - 1])) && q in mem;
      HoldsRelink(m0, m0, t, z, u.right);
      RelinkedIs(m0, t, z, path, u.right);
      mem := mem[q := SetChild(mem[q], 0, mem[r].right)];
      ghost var t1 := Put(t, z, u.right);
      PathIdsPut(t, z, path, u.right);
      assert q != r by { ParentIds(t, z); ParentOf(t, z); assert u.id in Ids(u); }
      DropSizes(path, t1, z);
    }

    /** Replace the node p by its left child, or by its successor: the writes below p's parent. */
    method Splice(p: nat, ghost t: Tree<K>) returns (s: nat, path: seq<nat>, dirs: seq<nat>, ghost k: nat)
      requires Holds(mem, t) && Distinct(t) && t.Node? && p == Ptr(t)
      modifies this`mem
      ensures t.right.Node? ==> Leftmost(t.right, k)
      ensures Holds(mem, Replacement(t, k).tree) && s == Ptr(Replacement(t, k).tree) && dirs == Replacement(t, k).dirs
      ensures PathIds(Replacement(t, k).tree, dirs, path) && |path| < Height(t)
      ensures Same(old(mem), mem, Ids(t) - {p}) && mem.Keys == old(mem).Keys
    {
      ghost var m0 := mem;
      path, dirs, k := [], [], 0;
      var q := mem[p].right;
      if q == NULL {
        return mem[p].left, path, dirs, k;
      }
      assert Holds(m0, t.right) && Distinct(t.right) && (t.right.left.Node? ==> Distinct(t.right.left));
      if mem[q].left == NULL {
        s, path, dirs := q, [q], [1];
        mem := mem[q := mem[q].(left := mem[p].left)];
        CopyBalance(p, q);
        SuccessorIsChild(m0, mem, t);
        return;
      }
      s, path, k := SpliceDeep(p, q, t);
      dirs := [1] + Zeros(|path|);
      path := [s] + path;
    }

    /** The replacement takes over balance factor and size of the node removed. */
    method CopyBalance(p: nat, r: nat)
      requires p in mem && r in mem && p != r
      modifies this`mem
      ensures mem == old(mem)[r := old(mem)[r].(bal := old(mem)[p].bal, size := old(mem)[p].size - 1)]
    {
      mem := mem[r := mem[r].(bal := mem[p].bal)];
      mem := mem[r := mem[r].(size := mem[p].size - 1)];
    }

    /** The right child has a left child: the leftmost node below it takes p's place. */
    method SpliceDeep(p: nat, q: nat, ghost t: Tree<K>) returns (r: nat, path: seq<nat>, ghost k: nat)
      requires Holds(mem, t) && Distinct(t) && t.Node? && p == Ptr(t)
      requires t.right.Node? && t.right.left.Node? && q == t.right.id
      modifies this`mem
      ensures Leftmost(t.right, k) && k == |path| && k + 1 < Height(t)
      ensures Holds(mem, Replacement(t, k).tree) && r == Ptr(Replacement(t, k).tree)
      ensures Replacement(t, k).dirs == [1] + Zeros(k)
      ensures PathIds(Replacement(t, k).tree, [1] + Zeros(k), [r] + path)
      ensures Same(old(mem), mem, Ids(t) - {p}) && mem.Keys == old(mem).Keys
    {
      ghost var m0 := mem;
      assert Holds(m0, t.right) && Distinct(t.right);
      r, path, k := FindLeftmost(q, t.right);
      SplicedIds(t.right, k);
      HoldsAt(m0, t.right, Zeros(k));
      assert k != 0;
      CutLeftmost(r, path, t.right, k);
      ghost var m1 := mem;
      mem := mem[r := mem[r].(left := mem[p].left)];
      mem := mem[r := mem[r].(right := mem[p].right)];
      CopyBalance(p, r);
      HoldsFrame(m1, mem, Spliced(t.right, k), {r});
      SuccessorIsDeep(m0, mem, t, k, path);
    }

    /** The balance repair after a deletion, from the end of the path up to the root; with the fake node above the root the
        path and the directions fit their arrays. */
    method MendLoop(path: seq<nat>, dirs: seq<nat>)
      requires |path| + 1 <= KAVL_MAX_DEPTH
      requires Holds(mem, tree) && root == Ptr(tree) && Distinct(tree)
      requires OnPath(tree, dirs) && PathIds(tree, dirs, path) && Mendable(tree, dirs)
      modifies this
      ensures OnPath(old(tree), dirs) && tree == Mend(old(tree), dirs).tree
      ensures Holds(mem, tree) && root == Ptr(tree) && Distinct(tree) && Ids(tree) == Ids(old(tree))
      ensures Same(old(mem), mem, Ids(tree)) && mem.Keys == old(mem).Keys
    {
      ghost var t := tree;
      var d := |path|;
      MendStart(t, dirs);
      while 0 < d
        invariant 0 <= d <= |path| == |dirs|
        invariant tree == MendedTo(t, dirs, d) && StillShrunk(t, dirs, d)
        invariant Holds(mem, tree) && root == Ptr(tree) && Distinct(tree) && Ids(tree) == Ids(t)
        invariant Same(old(mem), mem, Ids(t)) && mem.Keys == old(mem).Keys
      {
        d := d - 1;
        MendStep(t, dirs, d);
        PathIdsAt(t, dirs, path, d);
        MendedPath(t, dirs, path, d + 1);
        PathPrefix(tree, dirs, path, d);
        ghost var m0, n := mem, At(tree, dirs[..d]);
        var goOn := MendNode(path[..d], dirs[..d], path[d], dirs[d], n);
        if !goOn {
          MendStop(t, dirs, d);
          return;
        }
      }
    }

    /** One round of the repair: returns whether the level shrank. */
    method MendNode(path: seq<nat>, dirs: seq<nat>, q: nat, which: nat, ghost n: Tree<K>) returns (goOn: bool)
      requires Holds(mem, tree) && root == Ptr(tree) && Distinct(tree)
      requires OnPath(tree, dirs) && PathIds(tree, dirs, path) && At(tree, dirs) == n && n.Node? && q == n.id
      requires which <= 1 && Avl(Shrunk(n, which, true).tree)
      modifies this
      ensures tree == Put(old(tree), dirs, Shrunk(n, which, true).tree)
      ensures goOn == Shrunk(n, which, true).level
      ensures Holds(mem, tree) && root == Ptr(tree) && Distinct(tree) && Ids(tree) == Ids(old(tree))
      ensures Same(old(mem), mem, Ids(tree)) && mem.Keys == old(mem).Keys
    {
      var b1, b2 := 1, 2;
      if which == 1 {
        b1, b2 := -b1, -b2;
      }
      ghost var t0, n1 := tree, n.(bal := n.bal + b1);
      HoldsAt(mem, t0, dirs);
      HoldsEdit(mem, t0, dirs, n1);
      AtIds(t0, dirs);
      assert q in Ids(n);
      PutAt(t0, dirs, n1);
      PathIdsPut(t0, dirs, path, n1);
      UnloadPossible(n, which);
      mem := mem[q := mem[q].(bal := mem[q].bal + b1)];
      tree := Put(t0, dirs, n1);
      if mem[q].bal == b1 {
        return false;
      }
      if mem[q].bal != b2 {
        return true;
      }
      goOn := UnloadNode(path, dirs, q, which, n1);
    }

    /** path[d-1]->p[dir[d-1]] = kavl_rotate...(q, which) */
    method UnloadNode(path: seq<nat>, dirs: seq<nat>, q: nat, which: nat, ghost n: Tree<K>) returns (goOn: bool)
      requires Holds(mem, tree) && root == Ptr(tree) && Distinct(tree)
      requires OnPath(tree, dirs) && PathIds(tree, dirs, path) && At(tree, dirs) == n && n.Node? && q == n.id
      requires CanUnload(n, which)
      modifies this
      ensures tree == Put(old(tree), dirs, Unload(n, which).tree)
      ensures goOn == Unload(n, which).level
      ensures Holds(mem, tree) && root == Ptr(tree) && Distinct(tree) && Ids(tree) == Ids(old(tree))
      ensures Same(old(mem), mem, Ids(tree)) && mem.Keys == old(mem).Keys
    {
      ghost var m1, t1, s := mem, tree, Unload(n, which).tree;
      HoldsAt(mem, t1, dirs);
      AtIds(t1, dirs);
      var r;
      r, goOn := UnloadAt(q, which, n);
      Relink(path, dirs, r, m1, s);
    }

    /** Hang the rebuilt subtree s where the path ends. */
    method Relink(path: seq<nat>, dirs: seq<nat>, p: nat, ghost m1: Memory<K>, ghost s: Tree<K>)
      requires Holds(m1, tree) && root == Ptr(tree) && Distinct(tree)
      requires OnPath(tree, dirs) && PathIds(tree, dirs, path) && p == Ptr(s)
      requires Holds(mem, s) && Distinct(s) && Ids(s) <= Ids(At(tree, dirs))
      requires Same(m1, mem, Ids(At(tree, dirs))) && m1.Keys == mem.Keys
      modifies this
      ensures tree == Put(old(tree), dirs, s)
      ensures Holds(mem, tree) && root == Ptr(tree) && Distinct(tree)
      ensures Ids(tree) == (Ids(old(tree)) - Ids(At(old(tree), dirs))) + Ids(s)
      ensures Same(old(mem), mem, Ids(old(tree))) && mem.Keys == old(mem).Keys
    {
      ghost var t1 := tree;
      HoldsRelink(m1, mem, t1, dirs, s);
      if dirs != [] {
        PathIdsAt(t1, dirs, path, |dirs| - 1);
        AtIds(t1, dirs[..|dirs| - 1]);
        assert path[|dirs| - 1] in Ids(At(t1, dirs[..|dirs| - 1]));
        RelinkedIs(mem, t1, dirs, path, s);
      }
      SetLink(path, dirs, p, t1, s);
      RootPtr(t1, dirs, s);
      tree := Put(t1, dirs, s);
    }

    /** The rotation of the repair loop and the balance factors after it. */
    method UnloadAt(q: nat, which: nat, ghost t: Tree<K>) returns (s: nat, goOn: bool)
      requires Holds(mem, t) && Distinct(t) && CanUnload(t, which) && q == Ptr(t)
      modifies this`mem
      ensures Holds(mem, Unload(t, which).tree) && s == Ptr(Unload(t, which).tree) && goOn == Unload(t, which).level
      ensures Same(old(mem), mem, Ids(t)) && mem.Keys == old(mem).Keys
      ensures Distinct(Unload(t, which).tree) && Ids(Unload(t, which).tree) == Ids(t)
    {
      var b1 := if which == 0 then 1 else -1;
      var r := GetChild(mem[q], 1 - which);
      RotateIds(t, which);
      GrandChildren(mem, t, 1 - which);
      if mem[r].bal == -b1 {
        s := KavlRotate2(q, which, t);
        return s, true;
      }
      s := KavlRotate1(q, which, t);
      ghost var u := Rotate1(t, which);
      if mem[r].bal == 0 {
        SetBoth(mem, u, which, -b1, b1);
        mem := mem[r := mem[r].(bal := -b1)];
        mem := mem[q := mem[q].(bal := b1)];
        return s, false;
      }
      SetBoth(mem, u, which, 0, 0);
      mem := mem[r := mem[r].(bal := 0)];
      mem := mem[q := mem[q].(bal := 0)];
      return s, true;
    }

    /** Splice the node p out of the tree. */
    method UnlinkNode(p: nat, path: seq<nat>, dirs: seq<nat>, ghost n: Tree<K>)
      returns (tailPath: seq<nat>, tailDirs: seq<nat>, ghost k: nat)
      requires Holds(mem, tree) && root == Ptr(tree) && Distinct(tree)
      requires OnPath(tree, dirs) && PathIds(tree, dirs, path) && At(tree, dirs) == n && n.Node? && p == n.id
      modifies this
      ensures n.right.Node? ==> Leftmost(n.right, k)
      ensures |tailPath| < Height(n)
      ensures tailDirs == Replacement(n, k).dirs && tree == Put(old(tree), dirs, Replacement(n, k).tree)
      ensures OnPath(tree, dirs + tailDirs) && PathIds(tree, dirs + tailDirs, path + tailPath)
      ensures Holds(mem, tree) && root == Ptr(tree) && Distinct(tree) && Ids(tree) == Ids(old(tree)) - {p}
      ensures Same(old(mem), mem, Ids(old(tree))) && mem.Keys == old(mem).Keys
    {
      ghost var m1, w := mem, tree;
      HoldsAt(m1, w, dirs);
      AtIds(w, dirs);
      assert n.id in Ids(n);
      var s;
      s, tailPath, tailDirs, k := Splice(p, n);
      ghost var r := Replacement(n, k).tree;
      ReplacementIds(n, k);
      PutAt(w, dirs, r);
      PathIdsPut(w, dirs, path, r);
      Relink(path, dirs, s, m1, r);
      PathIdsJoin(tree, dirs, path, tailDirs, tailPath);
    }

    /** kavl_erase: exactly the node found is taken out and returned; the tree in memory is the balanced tree
        of module AvlTree. */
    method Erase(x: K) returns (p: nat, cnt: int)
      requires Valid() && Cuts(x, InOrder(tree), cmp)
      modifies this
      ensures Valid() && mem.Keys == old(mem).Keys && Same(old(mem), mem, Ids(old(tree)))
      ensures var f := AvlTree.Find(old(tree), x, cmp);
              if f.Nil? then p == NULL && cnt == 0 && tree == old(tree) && mem == old(mem) && root == old(root)
              else p == f.id && cnt == Rank(old(tree), x, cmp) && tree == Remove(old(tree), x, cmp).tree
                   && Ids(tree) == Ids(old(tree)) - {p}
    {
      ghost var t0 := tree;
      var path, dirs;
      p, cnt, path, dirs := SearchDown(x);
      if p == NULL {
        return;
      }
      RemoveCorrect(t0, x, cmp);
      SearchPathOn(t0, dirs, x, cmp);
      DropSizes(path, t0, dirs);
      AlongPath(Wither, t0, dirs, |dirs|);
      PathIdsAlong(Wither, t0, dirs, path, |dirs|);
      ghost var w, n := Along(Wither, t0, dirs, |dirs|), At(t0, dirs);
      tree := w;
      assert mem.Keys == old(mem).Keys;
      ghost var k;
      var tailPath, tailDirs;
      tailPath, tailDirs, k := UnlinkNode(p, path, dirs, n);
      RemoveIsMend(t0, dirs, k, x, cmp);
      MendLoop(path + tailPath, dirs + tailDirs);
    }
  }


  lemma SuccessorIsChild<K>(m0: Memory<K>, mem: Memory<K>, t: Tree<K>)
    requires Holds(m0, t) && Distinct(t) && t.Node? && t.right.Node? && t.right.left.Nil?
    requires Same(m0, mem, {t.right.id}) && t.right.id in mem
    requires mem[t.right.id] == Cell(t.right.key, t.bal, t.size - 1, Ptr(t.left), Ptr(t.right.right))
    ensures Leftmost(t.right, 0) && Replacement(t, 0).dirs == [1]
    ensures Holds(mem, Replacement(t, 0).tree) && Ptr(Replacement(t, 0).tree) == t.right.id
    ensures PathIds(Replacement(t, 0).tree, [1], [t.right.id]) && 1 < Height(t)
  {
    var q := t.right;
    assert Zeros(0) == [];
    assert Holds(m0, q) && Distinct(q) && q.id in Ids(q);
    HoldsFrame(m0, mem, t.left, {q.id});
    HoldsFrame(m0, mem, q.right, {q.id});
    assert Spliced(q, 0) == q.right;
    assert [1][1..] == [] && [q.id][1..] == [];
  }

  lemma SuccessorIsDeep<K>(m0: Memory<K>, mem: Memory<K>, t: Tree<K>, k: nat, path: seq<nat>)
    requires Holds(m0, t) && Distinct(t) && t.Node? && t.right.Node? && Leftmost(t.right, k) && k != 0
    requires OnPath(t.right, Zeros(k)) && PathIds(t.right, Zeros(k), path)
    requires At(t.right, Zeros(k)).Node?
    requires var r := At(t.right, Zeros(k));
             && Same(m0, mem, Ids(t.right)) && r.id in mem
             && mem[r.id] == Cell(r.key, t.bal, t.size - 1, Ptr(t.left), Ptr(t.right))
    requires Holds(mem, Spliced(t.right, k))
    ensures Holds(mem, Replacement(t, k).tree) && Ptr(Replacement(t, k).tree) == At(t.right, Zeros(k)).id
    ensures Replacement(t, k).dirs == [1] + Zeros(k)
    ensures PathIds(Replacement(t, k).tree, [1] + Zeros(k), [At(t.right, Zeros(k)).id] + path)
  {
    var r := At(t.right, Zeros(k));
    HoldsFrame(m0, mem, t.left, Ids(t.right));
    LeftmostAt(t.right, k);
    PathIdsPut(t.right, Zeros(k), path, r.right);
    PathIdsAlong(Wither, Put(t.right, Zeros(k), r.right), Zeros(k), path, k);
    SplicedStep(t.right, k);
    assert ([1] + Zeros(k))[1..] == Zeros(k) && ([r.id] + path)[1..] == path;
  }

  lemma LeftmostShift<K>(t: Tree<K>, u: Tree<K>, k: nat)
    requires u.Node? && u.left.Node? && forall m: nat :: Leftmost(u, m) ==> Leftmost(t, k + m)
    ensures forall m: nat :: Leftmost(u.left, m) ==> Leftmost(t, k + 1 + m)
  {
    forall m: nat | Leftmost(u.left, m)
      ensures Leftmost(t, k + 1 + m)
    {
      assert Leftmost(u, m + 1);
    }
  }

  lemma RootPtr<K>(t: Tree<K>, dirs: seq<nat>, s: Tree<K>)
    requires OnPath(t, dirs)
    ensures dirs != [] || Ptr(s) == Ptr(At(t, dirs)) ==> Ptr(Put(t, dirs, s)) == Ptr(t)
    ensures dirs == [] ==> Ptr(Put(t, dirs, s)) == Ptr(s)
  {
    if dirs != [] {
      PutPtr(t, dirs, s);
    }
  }

  /** The parent of the pivot is a cell of the tree outside the subtree at the pivot. */
  lemma OutsideCell<K>(mem: Memory<K>, mem': Memory<K>, t: Tree<K>, dirs: seq<nat>, path: seq<nat>, b: nat)
    requires OnPath(t, dirs) && PathIds(t, dirs, path) && Distinct(t) && Holds(mem, t) && 0 < b < |dirs|
    requires OnPath(t, dirs[..b]) && Same(mem, mem', Ids(At(t, dirs[..b])))
    ensures path[b - 1] in Ids(t) && path[b - 1] != NULL && path[b - 1] in mem && path[b - 1] in mem' && mem'[path[b - 1]] == mem[path[b - 1]]
  {
    PathIdsAt(t, dirs, path, b - 1);
    assert dirs[..(b - 1) + 1] == dirs[..b];
    var p := At(t, dirs[..b - 1]);
    HoldsAt(mem, t, dirs[..b - 1]);
    AtIds(t, dirs[..b - 1]);
    assert Distinct(p) && p.id !in Ids(Child(p, dirs[b - 1]));
  }

  /** One write of a loop along a path. */
  lemma EditStep<K>(mem: Memory<K>, e: Edit, t: Tree<K>, dirs: seq<nat>, path: seq<nat>, i: nat)
    requires OnPath(t, dirs) && PathIds(t, dirs, path) && i < |dirs| && Distinct(t)
    requires Holds(mem, Along(e, t, dirs, i))
    ensures OnPath(t, dirs[..i]) && At(t, dirs[..i]).Node?
    ensures path[i] in mem && path[i] in Ids(t) && mem[path[i]] == CellOf(At(t, dirs[..i]))
    ensures Holds(mem[path[i] := CellOf(Apply(e, At(t, dirs[..i]), dirs[i]))], Along(e, t, dirs, i + 1))
  {
    var u := Along(e, t, dirs, i);
    AlongStep(e, t, dirs, i);
    AlongPath(e, t, dirs, i);
    PathIdsAt(t, dirs, path, i);
    HoldsAt(mem, u, dirs[..i]);
    HoldsEdit(mem, u, dirs[..i], Apply(e, At(t, dirs[..i]), dirs[i]));
    AtIds(t, dirs[..i]);
    assert At(t, dirs[..i]).id in Ids(At(t, dirs[..i]));
  }

  lemma NotYetThere<K>(t: Tree<K>, dirs: seq<nat>, path: seq<nat>, i: nat)
    requires OnPath(t, dirs) && PathIds(t, dirs, path) && i < |dirs| && Distinct(t) && At(t, dirs).Node?
    ensures path[i] != At(t, dirs).id
  {
    PathIdsAt(t, dirs, path, i);
    assert dirs == dirs[..i] + dirs[i..];
    PathSplit(t, dirs[..i], dirs[i..]);
    AtIds(t, dirs[..i]);
    ProperDescendant(At(t, dirs[..i]), dirs[i..]);
  }

  /** New balance factors for the two nodes of a single rotation. */
  lemma SetBoth<K>(mem: Memory<K>, u: Tree<K>, which: nat, balU: int, balP: int)
    requires which <= 1 && u.Node? && Child(u, which).Node? && Holds(mem, u) && Distinct(u)
    ensures var p := Child(u, which);
            && u.id in mem && p.id in mem && u.id != p.id && u.id in Ids(u) && p.id in Ids(u)
            && mem[u.id] == CellOf(u) && mem[p.id] == CellOf(p)
            && Holds(mem[u.id := CellOf(u).(bal := balU)][p.id := CellOf(p).(bal := balP)],
                     Link(u.(bal := balU), which, p.(bal := balP)))
            && Distinct(Link(u.(bal := balU), which, p.(bal := balP)))
            && Ids(Link(u.(bal := balU), which, p.(bal := balP))) == Ids(u)
  {
    var p := Child(u, which);
    GrandChildren(mem, u, which);
    var mem' := mem[u.id := CellOf(u).(bal := balU)][p.id := CellOf(p).(bal := balP)];
    HoldsFrame(mem, mem', Child(u, 1 - which), {u.id, p.id});
    HoldsFrame(mem, mem', p.left, {u.id, p.id});
    HoldsFrame(mem, mem', p.right, {u.id, p.id});
  }

  lemma {:induction false} PathIdsJoin<K>(t: Tree<K>, dirs: seq<nat>, path: seq<nat>, dirs': seq<nat>, path': seq<nat>)
    requires OnPath(t, dirs) && PathIds(t, dirs, path)
    requires OnPath(At(t, dirs), dirs') && PathIds(At(t, dirs), dirs', path')
    ensures OnPath(t, dirs + dirs') && PathIds(t, dirs + dirs', path + path')
  {
    if dirs == [] {
      assert dirs + dirs' == dirs' && path + path' == path';
    } else {
      assert (dirs + dirs')[1..] == dirs[1..] + dirs' && (path + path')[1..] == path[1..] + path';
      PathIdsJoin(Child(t, dirs[0]), dirs[1..], path[1..], dirs', path');
    }
  }

  /** The path to a node at depth d is the beginning of the whole path. */
  lemma PathPrefix<K>(t: Tree<K>, dirs: seq<nat>, path: seq<nat>, d: nat)
    requires d < |dirs| && OnPath(t, dirs[..d + 1]) && |path| == |dirs| && PathIds(t, dirs[..d + 1], path[..d + 1])
    ensures OnPath(t, dirs[..d]) && PathIds(t, dirs[..d], path[..d])
  {
    var a, b := dirs[..d + 1], path[..d + 1];
    assert a == dirs[..d] + [dirs[d]];
    PathSplit(t, dirs[..d], [dirs[d]]);
    PathIdsPrefix(t, a, b, d);
    assert a[..d] == dirs[..d] && b[..d] == path[..d];
  }

  lemma {:induction false} PathIdsPrefix<K>(t: Tree<K>, dirs: seq<nat>, path: seq<nat>, d: nat)
    requires OnPath(t, dirs) && PathIds(t, dirs, path) && d <= |dirs|
    ensures OnPath(t, dirs[..d]) && PathIds(t, dirs[..d], path[..d])
  {
    if d == 0 {
      assert dirs[..0] == [];
    } else {
      assert dirs[..d][0] == dirs[0] && dirs[..d][1..] == dirs[1..][..d - 1] && path[..d][1..] == path[1..][..d - 1];
      PathIdsPrefix(Child(t, dirs[0]), dirs[1..], path[1..], d - 1);
    }
  }
}
