/** The phases of kavl_erase on trees: discount along the path, splice the node out, then repair balance
    factors from the bottom up; and why they amount to the recursive deletion of module AvlTree.
 */
module KavlErase {
  import opened AvlTree
  import opened KavlHeap
  import opened KavlInsert

  /** The repair loop: the subtree at the end of the path lost a level, and so on upwards. */
  ghost function Mend<K>(t: Tree<K>, dirs: seq<nat>): Step<K>
    requires OnPath(t, dirs)
  {
    if dirs == [] then Step(t, true)
    else
      var Step(c, shrunk) := Mend(Child(t, dirs[0]), dirs[1..]);
      Shrunk(Link(t, dirs[0], c), dirs[0], shrunk)
  }

  /** Every subtree on the path ends up balanced. */
  ghost predicate Mendable<K>(t: Tree<K>, dirs: seq<nat>)
    requires OnPath(t, dirs)
  {
    Avl(Mend(t, dirs).tree) && (dirs != [] ==> Mendable(Child(t, dirs[0]), dirs[1..]))
  }

  function Zeros(k: nat): seq<nat> {
    seq(k, i => 0)
  }

  lemma ZerosTail(k: nat)
    requires k != 0
    ensures Zeros(k)[0] == 0 && Zeros(k)[1..] == Zeros(k - 1)
  {
  }

  /** The leftmost node of a subtree is k steps to the left. */
  ghost predicate Leftmost<K>(t: Tree<K>, k: nat) {
    t.Node? && if k == 0 then t.left.Nil? else Leftmost(t.left, k - 1)
  }

  lemma {:induction false} LeftmostAt<K>(t: Tree<K>, k: nat)
    requires Leftmost(t, k)
    ensures OnPath(t, Zeros(k)) && At(t, Zeros(k)).Node? && At(t, Zeros(k)).left.Nil?
  {
    if k != 0 {
      ZerosTail(k);
      LeftmostAt(t.left, k - 1);
    }
  }

  /** The right subtree without its leftmost node, counts adjusted, before repair. */
  ghost function Spliced<K>(t: Tree<K>, k: nat): Tree<K>
    requires Leftmost(t, k)
    ensures OnPath(Spliced(t, k), Zeros(k))
  {
    LeftmostAt(t, k);
    var s := Put(t, Zeros(k), At(t, Zeros(k)).right);
    PutAt(t, Zeros(k), At(t, Zeros(k)).right);
    AlongPath(Wither, s, Zeros(k), k);
    Along(Wither, s, Zeros(k), k)
  }

  lemma SplicedStep<K>(t: Tree<K>, k: nat)
    requires Leftmost(t, k) && k != 0
    ensures OnPath(t, Zeros(k)) && OnPath(t.left, Zeros(k - 1))
    ensures Spliced(t, k) == t.(size := t.size - 1, left := Spliced(t.left, k - 1))
    ensures At(t, Zeros(k)) == At(t.left, Zeros(k - 1))
  {
    LeftmostAt(t, k);
    LeftmostAt(t.left, k - 1);
    ZerosTail(k);
  }

  /** Taking out the leftmost node is splicing and mending. */
  lemma {:induction false} RemoveMinIsMend<K>(t: Tree<K>, k: nat)
    requires Avl(t) && Leftmost(t, k)
    ensures OnPath(t, Zeros(k))
    ensures var Step(r, shrunk) := Mend(Spliced(t, k), Zeros(k));
            RemoveMin(t) == Taken(r, At(t, Zeros(k)), shrunk)
    ensures Mendable(Spliced(t, k), Zeros(k))
  {
    LeftmostAt(t, k);
    RemoveMinCorrect(t);
    if k != 0 {
      RemoveMinIsMend(t.left, k - 1);
      SplicedStep(t, k);
      ZerosTail(k);
    }
  }

  datatype Replaced<K> = Replaced(tree: Tree<K>, dirs: seq<nat>)

  /** What replaces the removed node p, before repair, and the path the repair starts from. */
  ghost function Replacement<K>(p: Tree<K>, k: nat): Replaced<K>
    requires p.Node? && (p.right.Node? ==> Leftmost(p.right, k))
    ensures OnPath(Replacement(p, k).tree, Replacement(p, k).dirs)
  {
    if p.right.Nil? then Replaced(p.left, [])
    else
      LeftmostAt(p.right, k);
      var r := At(p.right, Zeros(k));
      var s := Node(r.id, r.key, p.bal, p.size - 1, p.left, Spliced(p.right, k));
      assert ([1] + Zeros(k))[1..] == Zeros(k);
      Replaced(s, [1] + Zeros(k))
  }

  lemma RemoveRootIsMend<K>(p: Tree<K>, k: nat)
    requires p.Node? && Avl(p) && (p.right.Node? ==> Leftmost(p.right, k))
    ensures var Replaced(s, dirs) := Replacement(p, k); RemoveRoot(p) == Mend(s, dirs) && Mendable(s, dirs)
  {
    RemoveRootCorrect(p);
    if p.right.Node? {
      RemoveMinIsMend(p.right, k);
      assert ([1] + Zeros(k))[1..] == Zeros(k);
    }
  }

  /** Removing the node found at the end of a search path. */
  ghost function Unlinked<K>(t: Tree<K>, dirs: seq<nat>, k: nat): Tree<K>
    requires OnPath(t, dirs) && At(t, dirs).Node? && (At(t, dirs).right.Node? ==> Leftmost(At(t, dirs).right, k))
  {
    AlongPath(Wither, t, dirs, |dirs|);
    Put(Along(Wither, t, dirs, |dirs|), dirs, Replacement(At(t, dirs), k).tree)
  }

  lemma {:induction false} UnlinkedStep<K>(t: Tree<K>, dirs: seq<nat>, k: nat)
    requires OnPath(t, dirs) && At(t, dirs).Node? && (At(t, dirs).right.Node? ==> Leftmost(At(t, dirs).right, k))
    requires dirs != []
    ensures Unlinked(t, dirs, k) == Link(t.(size := t.size - 1), dirs[0], Unlinked(Child(t, dirs[0]), dirs[1..], k))
  {
    AlongPath(Wither, t, dirs, |dirs|);
    AlongPath(Wither, Child(t, dirs[0]), dirs[1..], |dirs| - 1);
  }

  lemma {:induction false} RemoveIsMend<K>(t: Tree<K>, dirs: seq<nat>, k: nat, x: K, cmp: Order<K>)
    requires Avl(t) && Cuts(x, InOrder(t), cmp) && SearchPath(t, dirs, x, cmp) && OnPath(t, dirs)
    requires At(t, dirs).Node? && cmp(x, At(t, dirs).key) == 0
    requires At(t, dirs).right.Node? ==> Leftmost(At(t, dirs).right, k)
    ensures var path := dirs + Replacement(At(t, dirs), k).dirs;
            && OnPath(Unlinked(t, dirs, k), path)
            && Remove(t, x, cmp) == Mend(Unlinked(t, dirs, k), path)
            && Mendable(Unlinked(t, dirs, k), path)
  {
    var tail := Replacement(At(t, dirs), k).dirs;
    var path := dirs + tail;
    SearchPathOn(t, dirs, x, cmp);
    RemoveCorrect(t, x, cmp);
    if dirs == [] {
      RemoveRootIsMend(t, k);
      assert path == tail;
    } else {
      CutsParts(t, x, cmp);
      RemoveIsMend(Child(t, dirs[0]), dirs[1..], k, x, cmp);
      UnlinkedStep(t, dirs, k);
      assert path[0] == dirs[0] && path[1..] == dirs[1..] + tail;
    }
  }

  // ---------- the repair loop, bottom up ----------

  /** The tree after the nodes below depth j have been repaired. */
  ghost function MendedTo<K>(t: Tree<K>, dirs: seq<nat>, j: nat): Tree<K>
    requires OnPath(t, dirs) && j <= |dirs|
  {
    if j == 0 then Mend(t, dirs).tree else Link(t, dirs[0], MendedTo(Child(t, dirs[0]), dirs[1..], j - 1))
  }

  /** Whether the loop still has something to do at depth j. */
  ghost predicate StillShrunk<K>(t: Tree<K>, dirs: seq<nat>, j: nat)
    requires OnPath(t, dirs) && j <= |dirs|
  {
    if j == 0 then Mend(t, dirs).level else StillShrunk(Child(t, dirs[0]), dirs[1..], j - 1)
  }

  lemma {:induction false} MendStart<K>(t: Tree<K>, dirs: seq<nat>)
    requires OnPath(t, dirs)
    ensures MendedTo(t, dirs, |dirs|) == t && StillShrunk(t, dirs, |dirs|)
  {
    if dirs != [] {
      MendStart(Child(t, dirs[0]), dirs[1..]);
    }
  }

  /** When a level did not shrink, nothing above changes: the loop may stop. */
  lemma {:induction false} MendStop<K>(t: Tree<K>, dirs: seq<nat>, j: nat)
    requires OnPath(t, dirs) && j <= |dirs| && !StillShrunk(t, dirs, j)
    ensures MendedTo(t, dirs, j) == Mend(t, dirs).tree && !Mend(t, dirs).level
  {
    if j != 0 {
      MendStop(Child(t, dirs[0]), dirs[1..], j - 1);
    }
  }

  /** One round of the loop. */
  lemma {:induction false} MendStep<K>(t: Tree<K>, dirs: seq<nat>, j: nat)
    requires OnPath(t, dirs) && j < |dirs| && StillShrunk(t, dirs, j + 1) && Mendable(t, dirs)
    ensures OnPath(MendedTo(t, dirs, j + 1), dirs[..j]) && At(MendedTo(t, dirs, j + 1), dirs[..j]).Node?
    ensures var n := At(MendedTo(t, dirs, j + 1), dirs[..j]);
            && MendedTo(t, dirs, j) == Put(MendedTo(t, dirs, j + 1), dirs[..j], Shrunk(n, dirs[j], true).tree)
            && (StillShrunk(t, dirs, j) <==> Shrunk(n, dirs[j], true).level)
            && Avl(Shrunk(n, dirs[j], true).tree)
    ensures dirs[j] <= 1
    ensures OnPath(t, dirs[..j]) && At(t, dirs[..j]).Node?
    ensures At(MendedTo(t, dirs, j + 1), dirs[..j]).id == At(t, dirs[..j]).id
  {
    if j == 0 {
      assert dirs[..0] == [];
    } else {
      assert dirs[..j][0] == dirs[0] && dirs[..j][1..] == dirs[1..][..j - 1];
      MendStep(Child(t, dirs[0]), dirs[1..], j - 1);
    }
  }

  /** The rotation of the repair loop finds the nodes it needs. */
  lemma UnloadPossible<K>(n: Tree<K>, dir: nat)
    requires n.Node? && dir <= 1 && Avl(Shrunk(n, dir, true).tree)
    ensures var b1 := if dir == 0 then 1 else -1;
            n.bal + b1 == 2 * b1 ==> CanUnload(n.(bal := n.bal + b1), dir)
  {
  }

  lemma {:induction false} MendedPath<K>(t: Tree<K>, dirs: seq<nat>, path: seq<nat>, j: nat)
    requires OnPath(t, dirs) && PathIds(t, dirs, path) && j <= |dirs|
    ensures OnPath(MendedTo(t, dirs, j), dirs[..j]) && PathIds(MendedTo(t, dirs, j), dirs[..j], path[..j])
  {
    if j == 0 {
      assert dirs[..0] == [];
    } else {
      assert dirs[..j][0] == dirs[0] && dirs[..j][1..] == dirs[1..][..j - 1] && path[..j][1..] == path[1..][..j - 1];
      MendedPath(Child(t, dirs[0]), dirs[1..], path[1..], j - 1);
    }
  }

  // ---------- pointers of the spliced tree ----------

  lemma ReplacementIds<K>(p: Tree<K>, k: nat)
    requires p.Node? && Distinct(p) && (p.right.Node? ==> Leftmost(p.right, k))
    ensures Distinct(Replacement(p, k).tree) && Ids(Replacement(p, k).tree) == Ids(p) - {p.id}
  {
    if p.right.Node? {
      LeftmostAt(p.right, k);
      SplicedIds(p.right, k);
    }
  }

  lemma {:induction false} SplicedIds<K>(t: Tree<K>, k: nat)
    requires Distinct(t) && Leftmost(t, k)
    ensures OnPath(t, Zeros(k))
    ensures At(t, Zeros(k)).Node? && At(t, Zeros(k)).id in Ids(t) && At(t, Zeros(k)).id != NULL
    ensures Distinct(Spliced(t, k)) && Ids(Spliced(t, k)) == Ids(t) - {At(t, Zeros(k)).id}
  {
    LeftmostAt(t, k);
    var z := Zeros(k);
    var r := At(t, z);
    AtIds(t, z);
    assert r.id in Ids(r);
    PutDistinct(t, z, r.right);
    PutAt(t, z, r.right);
    AlongPath(Wither, Put(t, z, r.right), z, k);
  }
}
