/** Trees laid out in memory: cells addressed by pointers, paths from the root, and what a write to
    one cell does to the tree the memory holds.
 */
module KavlHeap {
  import opened AvlTree

  const NULL := 0

  /** struct node: KAVL_HEAD plus the key. */
  datatype Cell<K> = Cell(key: K, bal: int, size: int, left: nat, right: nat)

  type Memory<K> = map<nat, Cell<K>>

  function Ptr<K>(t: Tree<K>): nat {
    if t.Nil? then NULL else t.id
  }

  function CellOf<K>(t: Tree<K>): Cell<K>
    requires t.Node?
  {
    Cell(t.key, t.bal, t.size, Ptr(t.left), Ptr(t.right))
  }

  /** p->head.p[dir] = c */
  function SetChild<K>(c: Cell<K>, dir: nat, p: nat): Cell<K> {
    if dir == 0 then c.(left := p) else c.(right := p)
  }

  function GetChild<K>(c: Cell<K>, dir: nat): nat {
    if dir == 0 then c.left else c.right
  }

  ghost predicate Holds<K>(mem: Memory<K>, t: Tree<K>) {
    t.Node? ==> t.id in mem && mem[t.id] == CellOf(t) && Holds(mem, t.left) && Holds(mem, t.right)
  }

  ghost predicate Distinct<K>(t: Tree<K>) {
    t.Node? ==>
      && t.id != NULL && t.id !in Ids(t.left) && t.id !in Ids(t.right) && Ids(t.left) !! Ids(t.right)
      && Distinct(t.left) && Distinct(t.right)
  }

  /** Outside `touched`, memory is as before. */
  ghost predicate Same<K>(mem: Memory<K>, mem': Memory<K>, touched: set<nat>) {
    forall i :: i in mem && i !in touched ==> i in mem' && mem'[i] == mem[i]
  }

  lemma {:induction false} HoldsFrame<K>(mem: Memory<K>, mem': Memory<K>, t: Tree<K>, touched: set<nat>)
    requires Holds(mem, t) && Same(mem, mem', touched) && Ids(t) !! touched
    ensures Holds(mem', t)
  {
    if t.Node? {
      HoldsFrame(mem, mem', t.left, touched);
      HoldsFrame(mem, mem', t.right, touched);
    }
  }

  // ---------- paths ----------

  ghost predicate OnPath<K>(t: Tree<K>, dirs: seq<nat>) {
    dirs == [] || (t.Node? && dirs[0] <= 1 && OnPath(Child(t, dirs[0]), dirs[1..]))
  }

  /** The subtree at the end of a path. */
  ghost function At<K>(t: Tree<K>, dirs: seq<nat>): Tree<K>
    requires OnPath(t, dirs)
  {
    if dirs == [] then t else At(Child(t, dirs[0]), dirs[1..])
  }

  /** The tree with the subtree at the end of a path replaced. */
  ghost function Put<K>(t: Tree<K>, dirs: seq<nat>, s: Tree<K>): Tree<K>
    requires OnPath(t, dirs)
  {
    if dirs == [] then s else Link(t, dirs[0], Put(Child(t, dirs[0]), dirs[1..], s))
  }

  lemma {:induction false} PathSplit<K>(t: Tree<K>, a: seq<nat>, b: seq<nat>)
    ensures OnPath(t, a + b) <==> OnPath(t, a) && OnPath(At(t, a), b)
    ensures OnPath(t, a + b) ==> At(t, a + b) == At(At(t, a), b)
    ensures OnPath(t, a + b) ==> forall s :: Put(t, a + b, s) == Put(t, a, Put(At(t, a), b, s))
  {
    if a == [] {
      assert a + b == b;
    } else {
      assert (a + b)[0] == a[0] && (a + b)[1..] == a[1..] + b;
      if t.Node? && a[0] <= 1 {
        PathSplit(Child(t, a[0]), a[1..], b);
      }
    }
  }

  lemma {:induction false} PutAt<K>(t: Tree<K>, dirs: seq<nat>, s: Tree<K>)
    requires OnPath(t, dirs)
    ensures OnPath(Put(t, dirs, s), dirs) && At(Put(t, dirs, s), dirs) == s
    ensures Put(t, dirs, At(t, dirs)) == t
    ensures forall s' :: Put(Put(t, dirs, s), dirs, s') == Put(t, dirs, s')
  {
    if dirs != [] {
      PutAt(Child(t, dirs[0]), dirs[1..], s);
    }
  }

  lemma {:induction false} AtIds<K>(t: Tree<K>, dirs: seq<nat>)
    requires OnPath(t, dirs)
    ensures Ids(At(t, dirs)) <= Ids(t)
    ensures Distinct(t) ==> Distinct(At(t, dirs))
  {
    if dirs != [] {
      AtIds(Child(t, dirs[0]), dirs[1..]);
    }
  }

  lemma {:induction false} HoldsAt<K>(mem: Memory<K>, t: Tree<K>, dirs: seq<nat>)
    requires OnPath(t, dirs) && Holds(mem, t)
    ensures Holds(mem, At(t, dirs))
  {
    if dirs != [] {
      HoldsAt(mem, Child(t, dirs[0]), dirs[1..]);
    }
  }

  /** Replacing a subtree by one made of its own or of new cells keeps pointers distinct. */
  lemma {:induction false} PutDistinct<K>(t: Tree<K>, dirs: seq<nat>, s: Tree<K>)
    requires OnPath(t, dirs) && Distinct(t) && Distinct(s)
    requires Ids(s) !! (Ids(t) - Ids(At(t, dirs)))
    ensures Distinct(Put(t, dirs, s))
    ensures Ids(Put(t, dirs, s)) == (Ids(t) - Ids(At(t, dirs))) + Ids(s)
  {
    AtIds(t, dirs);
    if dirs != [] {
      var c, d := Child(t, dirs[0]), Child(t, 1 - dirs[0]);
      AtIds(c, dirs[1..]);
      assert Ids(t) == {t.id} + Ids(c) + Ids(d);
      PutDistinct(c, dirs[1..], s);
    }
  }

  /** The node whose child pointer leads to the end of a path, if any. */
  ghost function Parent<K>(t: Tree<K>, dirs: seq<nat>): set<nat>
    requires OnPath(t, dirs)
  {
    if dirs == [] then {} else if |dirs| == 1 then {t.id} else Parent(Child(t, dirs[0]), dirs[1..])
  }

  lemma {:induction false} ParentIds<K>(t: Tree<K>, dirs: seq<nat>)
    requires OnPath(t, dirs) && Distinct(t)
    ensures Parent(t, dirs) <= Ids(t) - Ids(At(t, dirs))
  {
    if |dirs| == 1 {
      assert At(t, dirs) == Child(t, dirs[0]);
    } else if dirs != [] {
      ParentIds(Child(t, dirs[0]), dirs[1..]);
      AtIds(Child(t, dirs[0]), dirs[1..]);
    }
  }

  /** The one lemma about writes: when memory outside the subtree changes at most in the pointer that
      leads to it, and holds the new subtree, it holds the whole new tree. */
  lemma {:induction false} HoldsPut<K>(mem: Memory<K>, mem': Memory<K>, t: Tree<K>, dirs: seq<nat>, s: Tree<K>)
    requires OnPath(t, dirs) && Distinct(t) && Holds(mem, t) && Holds(mem', s)
    requires forall i :: i in Ids(t) && i !in Ids(At(t, dirs)) && i !in Parent(t, dirs) ==> i in mem' && i in mem && mem'[i] == mem[i]
    requires forall i :: i in Parent(t, dirs) ==>
               i in mem' && i in mem && mem'[i] == SetChild(mem[i], dirs[|dirs| - 1], Ptr(s))
    ensures Holds(mem', Put(t, dirs, s))
  {
    if dirs != [] {
      var c, d := Child(t, dirs[0]), Child(t, 1 - dirs[0]);
      AtIds(t, dirs);
      AtIds(c, dirs[1..]);
      ParentIds(t, dirs);
      ParentIds(c, dirs[1..]);
      HoldsSibling(mem, mem', d);
      if |dirs| == 1 {
        assert At(t, dirs) == c;
      } else {
        HoldsPut(mem, mem', c, dirs[1..], s);
        PutPtr(c, dirs[1..], s);
      }
    }
  }

  lemma {:induction false} HoldsSibling<K>(mem: Memory<K>, mem': Memory<K>, t: Tree<K>)
    requires Holds(mem, t) && forall i :: i in Ids(t) ==> i in mem' && i in mem && mem'[i] == mem[i]
    ensures Holds(mem', t)
  {
    if t.Node? {
      HoldsSibling(mem, mem', t.left);
      HoldsSibling(mem, mem', t.right);
    }
  }

  lemma PutPtr<K>(t: Tree<K>, dirs: seq<nat>, s: Tree<K>)
    requires OnPath(t, dirs) && dirs != []
    ensures Ptr(Put(t, dirs, s)) == Ptr(t)
  {
  }

  // ---------- single writes ----------

  lemma {:induction false} ParentOf<K>(t: Tree<K>, dirs: seq<nat>)
    requires OnPath(t, dirs) && dirs != []
    ensures OnPath(t, dirs[..|dirs| - 1]) && At(t, dirs[..|dirs| - 1]).Node? && dirs[|dirs| - 1] <= 1
    ensures At(t, dirs) == Child(At(t, dirs[..|dirs| - 1]), dirs[|dirs| - 1])
    ensures Parent(t, dirs) == {At(t, dirs[..|dirs| - 1]).id}
  {
    if |dirs| == 1 {
      assert dirs[..0] == [];
    } else {
      assert dirs[1..][..|dirs| - 2] == dirs[..|dirs| - 1][1..];
      ParentOf(Child(t, dirs[0]), dirs[1..]);
    }
  }

  /** The parent's pointer already leads to the subtree. */
  lemma ParentPointer<K>(mem: Memory<K>, t: Tree<K>, dirs: seq<nat>, i: nat)
    requires OnPath(t, dirs) && dirs != [] && Holds(mem, t) && i in Parent(t, dirs)
    ensures i in mem && SetChild(mem[i], dirs[|dirs| - 1], Ptr(At(t, dirs))) == mem[i]
  {
    ParentOf(t, dirs);
    HoldsAt(mem, t, dirs[..|dirs| - 1]);
  }

  /** Two trees with the same root cell but for the balance factor and the size. */
  ghost predicate SameShape<K>(s: Tree<K>, t: Tree<K>) {
    s.Node? && t.Node? && s == t.(bal := s.bal, size := s.size)
  }

  /** Writing the balance factor or the size of a node on a path. */
  lemma HoldsEdit<K>(mem: Memory<K>, t: Tree<K>, dirs: seq<nat>, s: Tree<K>)
    requires OnPath(t, dirs) && Distinct(t) && Holds(mem, t) && SameShape(s, At(t, dirs))
    ensures s.id in mem
    ensures Holds(mem[s.id := CellOf(s)], Put(t, dirs, s))
    ensures Distinct(Put(t, dirs, s)) && Ids(Put(t, dirs, s)) == Ids(t) && Ptr(Put(t, dirs, s)) == Ptr(t)
  {
    var u := At(t, dirs);
    var mem' := mem[s.id := CellOf(s)];
    HoldsAt(mem, t, dirs);
    AtIds(t, dirs);
    HoldsFrame(mem, mem', u.left, {s.id});
    HoldsFrame(mem, mem', u.right, {s.id});
    ParentIds(t, dirs);
    forall i | i in Parent(t, dirs)
      ensures i in mem' && i in mem && mem'[i] == SetChild(mem[i], dirs[|dirs| - 1], Ptr(s))
    {
      ParentPointer(mem, t, dirs, i);
    }
    forall i | i in Ids(t)
      ensures i in mem
    {
      IdsHeld(mem, t, i);
    }
    HoldsPut(mem, mem', t, dirs, s);
    PutDistinct(t, dirs, s);
    if dirs != [] {
      PutPtr(t, dirs, s);
    }
  }

  lemma {:induction false} IdsHeld<K>(mem: Memory<K>, t: Tree<K>, i: nat)
    requires Holds(mem, t) && i in Ids(t)
    ensures i in mem
  {
    if i != t.id {
      if i in Ids(t.left) {
        IdsHeld(mem, t.left, i);
      } else {
        IdsHeld(mem, t.right, i);
      }
    }
  }

  /** Memory after the pointer at the end of a path has been redirected to s; for the empty path it is
      the root pointer that changes, not memory. */
  ghost function Relinked<K>(mem: Memory<K>, t: Tree<K>, dirs: seq<nat>, s: Tree<K>): Memory<K>
    requires OnPath(t, dirs)
  {
    if dirs == [] then mem
    else
      ParentOf(t, dirs);
      var p := At(t, dirs[..|dirs| - 1]).id;
      if p in mem then mem[p := SetChild(mem[p], dirs[|dirs| - 1], Ptr(s))] else mem
  }

  /** Rebuilding a subtree in place and then redirecting the pointer that leads to it. */
  lemma HoldsRelink<K>(mem: Memory<K>, mem1: Memory<K>, t: Tree<K>, dirs: seq<nat>, s: Tree<K>)
    requires OnPath(t, dirs) && Distinct(t) && Holds(mem, t)
    requires Same(mem, mem1, Ids(At(t, dirs)) + Ids(s)) && Holds(mem1, s)
    requires Distinct(s) && Ids(s) !! (Ids(t) - Ids(At(t, dirs)))
    ensures Holds(Relinked(mem1, t, dirs, s), Put(t, dirs, s))
    ensures Distinct(Put(t, dirs, s)) && Ids(Put(t, dirs, s)) == (Ids(t) - Ids(At(t, dirs))) + Ids(s)
    ensures dirs != [] ==> OnPath(t, dirs[..|dirs| - 1]) && At(t, dirs[..|dirs| - 1]).Node? && At(t, dirs[..|dirs| - 1]).id in mem1
  {
    AtIds(t, dirs);
    ParentIds(t, dirs);
    PutDistinct(t, dirs, s);
    forall i | i in Ids(t)
      ensures i in mem
    {
      IdsHeld(mem, t, i);
    }
    var mem2 := Relinked(mem1, t, dirs, s);
    if dirs != [] {
      ParentOf(t, dirs);
    }
    HoldsFrame(mem1, mem2, s, Parent(t, dirs));
    HoldsPut(mem, mem2, t, dirs, s);
  }

  // ---------- edits along a path ----------

  /** What the loops over a path do to one node: count one more, one fewer, or lean to a side. */
  datatype Edit = Grow | Wither | Lean

  function Apply<K>(e: Edit, t: Tree<K>, dir: nat): Tree<K>
    requires t.Node?
  {
    match e
    case Grow => t.(size := t.size + 1)
    case Wither => t.(size := t.size - 1)
    case Lean => t.(bal := t.bal + (if dir == 0 then -1 else 1))
  }

  /** The first k nodes of a path edited. */
  ghost function Along<K>(e: Edit, t: Tree<K>, dirs: seq<nat>, k: nat): Tree<K>
    requires OnPath(t, dirs) && k <= |dirs|
  {
    if k == 0 then t
    else Link(Apply(e, t, dirs[0]), dirs[0], Along(e, Child(t, dirs[0]), dirs[1..], k - 1))
  }

  /** One more node edited is one more write at the end of the edited stretch. */
  lemma {:induction false} AlongStep<K>(e: Edit, t: Tree<K>, dirs: seq<nat>, k: nat)
    requires OnPath(t, dirs) && k < |dirs|
    ensures OnPath(t, dirs[..k]) && At(t, dirs[..k]).Node?
    ensures OnPath(Along(e, t, dirs, k), dirs) && OnPath(Along(e, t, dirs, k), dirs[..k])
    ensures At(Along(e, t, dirs, k), dirs[..k]) == At(t, dirs[..k])
    ensures Along(e, t, dirs, k + 1) ==
            Put(Along(e, t, dirs, k), dirs[..k], Apply(e, At(t, dirs[..k]), dirs[k]))
  {
    if k == 0 {
      assert dirs[..0] == [];
    } else {
      assert dirs[..k][1..] == dirs[1..][..k - 1];
      AlongStep(e, Child(t, dirs[0]), dirs[1..], k - 1);
    }
  }

  lemma {:induction false} AlongPath<K>(e: Edit, t: Tree<K>, dirs: seq<nat>, k: nat)
    requires OnPath(t, dirs) && k <= |dirs|
    ensures OnPath(Along(e, t, dirs, k), dirs) && At(Along(e, t, dirs, k), dirs) == At(t, dirs)
    ensures Ids(Along(e, t, dirs, k)) == Ids(t) && (Distinct(t) ==> Distinct(Along(e, t, dirs, k)))
    ensures Ptr(Along(e, t, dirs, k)) == Ptr(t)
  {
    if k != 0 {
      AlongPath(e, Child(t, dirs[0]), dirs[1..], k - 1);
    }
  }

  // ---------- path arrays ----------

  /** `path` lists the nodes passed on the way down. */
  ghost predicate PathIds<K>(t: Tree<K>, dirs: seq<nat>, path: seq<nat>)
    requires OnPath(t, dirs)
  {
    |path| == |dirs| &&
    (dirs != [] ==> path[0] == t.id && PathIds(Child(t, dirs[0]), dirs[1..], path[1..]))
  }

  lemma {:induction false} PathIdsAt<K>(t: Tree<K>, dirs: seq<nat>, path: seq<nat>, i: nat)
    requires OnPath(t, dirs) && PathIds(t, dirs, path) && i < |dirs|
    ensures OnPath(t, dirs[..i]) && At(t, dirs[..i]).Node? && path[i] == At(t, dirs[..i]).id
    ensures OnPath(t, dirs[..i + 1]) && At(t, dirs[..i + 1]) == Child(At(t, dirs[..i]), dirs[i])
    ensures dirs[i] <= 1
  {
    if i == 0 {
      assert dirs[..0] == [] && dirs[..1][1..] == [];
    } else {
      assert dirs[..i][1..] == dirs[1..][..i - 1] && dirs[..i + 1][1..] == dirs[1..][..i];
      PathIdsAt(Child(t, dirs[0]), dirs[1..], path[1..], i - 1);
    }
  }

  lemma {:induction false} PathIdsExtend<K>(t: Tree<K>, dirs: seq<nat>, path: seq<nat>, d: nat)
    requires OnPath(t, dirs) && PathIds(t, dirs, path) && At(t, dirs).Node? && d <= 1
    ensures OnPath(t, dirs + [d]) && PathIds(t, dirs + [d], path + [At(t, dirs).id])
    ensures At(t, dirs + [d]) == Child(At(t, dirs), d)
  {
    if dirs == [] {
      assert [d][1..] == [] && (path + [t.id])[1..] == [];
    } else {
      assert (dirs + [d])[1..] == dirs[1..] + [d];
      assert (path + [At(t, dirs).id])[1..] == path[1..] + [At(t, dirs).id];
      PathIdsExtend(Child(t, dirs[0]), dirs[1..], path[1..], d);
    }
  }

  lemma ProperDescendant<K>(t: Tree<K>, dirs: seq<nat>)
    requires OnPath(t, dirs) && dirs != [] && Distinct(t) && At(t, dirs).Node?
    ensures At(t, dirs).id != t.id
  {
    AtIds(Child(t, dirs[0]), dirs[1..]);
    assert At(t, dirs).id in Ids(At(t, dirs));
  }

  lemma {:induction false} AvlAt<K>(t: Tree<K>, dirs: seq<nat>, x: K, cmp: Order<K>)
    requires OnPath(t, dirs) && Avl(t) && Cuts(x, InOrder(t), cmp)
    ensures Avl(At(t, dirs)) && Cuts(x, InOrder(At(t, dirs)), cmp)
  {
    if dirs != [] {
      CutsParts(t, x, cmp);
      AvlAt(Child(t, dirs[0]), dirs[1..], x, cmp);
    }
  }

  /** When the subtree keeps its root, the pointer leading to it need not be written. */
  lemma RelinkedSame<K>(mem: Memory<K>, mem1: Memory<K>, t: Tree<K>, dirs: seq<nat>, s: Tree<K>)
    requires OnPath(t, dirs) && Distinct(t) && Holds(mem, t)
    requires Same(mem, mem1, Ids(At(t, dirs))) && Ptr(s) == Ptr(At(t, dirs))
    ensures Relinked(mem1, t, dirs, s) == mem1
  {
    if dirs != [] {
      ParentOf(t, dirs);
      ParentIds(t, dirs);
      ParentPointer(mem, t, dirs, At(t, dirs[..|dirs| - 1]).id);
    }
  }

  /** A path array describes the tree whatever hangs at the end of the path. */
  lemma {:induction false} PathIdsPut<K>(t: Tree<K>, dirs: seq<nat>, path: seq<nat>, s: Tree<K>)
    requires OnPath(t, dirs) && PathIds(t, dirs, path)
    ensures OnPath(Put(t, dirs, s), dirs) && PathIds(Put(t, dirs, s), dirs, path)
  {
    if dirs != [] {
      PathIdsPut(Child(t, dirs[0]), dirs[1..], path[1..], s);
    }
  }

  lemma {:induction false} PathIdsAlong<K>(e: Edit, t: Tree<K>, dirs: seq<nat>, path: seq<nat>, k: nat)
    requires OnPath(t, dirs) && PathIds(t, dirs, path) && k <= |dirs|
    ensures OnPath(Along(e, t, dirs, k), dirs) && PathIds(Along(e, t, dirs, k), dirs, path)
  {
    if k != 0 {
      PathIdsAlong(e, Child(t, dirs[0]), dirs[1..], path[1..], k - 1);
    }
  }

  lemma {:induction false} PathIdsDrop<K>(t: Tree<K>, dirs: seq<nat>, path: seq<nat>, b: nat)
    requires OnPath(t, dirs) && PathIds(t, dirs, path) && b <= |dirs|
    ensures OnPath(t, dirs[..b]) && OnPath(At(t, dirs[..b]), dirs[b..])
    ensures PathIds(At(t, dirs[..b]), dirs[b..], path[b..])
  {
    if b == 0 {
      assert dirs[..0] == [] && dirs[0..] == dirs && path[0..] == path;
    } else {
      var c, rest := Child(t, dirs[0]), dirs[1..];
      PathIdsDrop(c, rest, path[1..], b - 1);
      assert dirs[..b] == [dirs[0]] + rest[..b - 1] && dirs[b..] == rest[b - 1..] && path[b..] == path[1..][b - 1..];
      assert dirs[..b][0] == dirs[0] && dirs[..b][1..] == rest[..b - 1];
      assert At(t, dirs[..b]) == At(c, rest[..b - 1]);
    }
  }

  /** Which child of its parent a node on a path is. */
  lemma WhichChild<K>(mem: Memory<K>, t: Tree<K>, dirs: seq<nat>, path: seq<nat>, b: nat)
    requires OnPath(t, dirs) && PathIds(t, dirs, path) && Distinct(t) && Holds(mem, t) && 0 < b < |dirs|
    ensures OnPath(t, dirs[..b]) && OnPath(t, dirs[..b - 1]) && At(t, dirs[..b - 1]).Node?
    ensures dirs[..b][..b - 1] == dirs[..b - 1]
    ensures path[b - 1] in mem && At(t, dirs[..b - 1]).id == path[b - 1]
    ensures dirs[b - 1] == if path[b] != mem[path[b - 1]].left then 1 else 0
  {
    PathIdsAt(t, dirs, path, b);
    PathIdsAt(t, dirs, path, b - 1);
    HoldsAt(mem, t, dirs[..b - 1]);
    AtIds(t, dirs[..b - 1]);
    var p, c := At(t, dirs[..b - 1]), At(t, dirs[..b]);
    assert c == Child(p, dirs[b - 1]) && c.id in Ids(c);
    assert dirs[..b][..b - 1] == dirs[..b - 1];
    assert Distinct(p) && Distinct(c);
    if p.left.Node? {
      assert p.left.id in Ids(p.left);
    }
  }

  /** The relinking write, in terms of the path array. */
  lemma RelinkedIs<K>(mem: Memory<K>, t: Tree<K>, dirs: seq<nat>, path: seq<nat>, s: Tree<K>)
    requires OnPath(t, dirs) && PathIds(t, dirs, path) && dirs != [] && path[|dirs| - 1] in mem
    ensures var p := path[|dirs| - 1];
            Relinked(mem, t, dirs, s) == mem[p := SetChild(mem[p], dirs[|dirs| - 1], Ptr(s))]
  {
    PathIdsAt(t, dirs, path, |dirs| - 1);
    ParentOf(t, dirs);
  }
}
