/** The balanced trees of nfq/kavl.h as values: every node carries its balance factor and the size of
    its subtree.  Insertion and deletion are written recursively here; the loops are in module Kavl.
 */
module AvlTree {

  datatype Tree<K> = Nil | Node(id: nat, key: K, bal: int, size: int, left: Tree<K>, right: Tree<K>)

  type Order<!K> = (K, K) -> int

  /** An edited subtree, and whether its height changed by the one level the edit can change it. */
  datatype Step<K> = Step(tree: Tree<K>, level: bool)

  /** A subtree without its leftmost node, that node, and whether the subtree lost a level. */
  datatype Taken<K> = Taken(rest: Tree<K>, min: Tree<K>, level: bool)

  function Size<K>(t: Tree<K>): int {
    if t.Nil? then 0 else t.size
  }

  function Height<K>(t: Tree<K>): nat {
    if t.Nil? then 0 else 1 + Max(Height(t.left), Height(t.right))
  }

  function Max(a: nat, b: nat): nat {
    if a < b then b else a
  }

  function InOrder<K>(t: Tree<K>): seq<K> {
    if t.Nil? then [] else InOrder(t.left) + [t.key] + InOrder(t.right)
  }

  function Ids<K>(t: Tree<K>): set<nat> {
    if t.Nil? then {} else {t.id} + Ids(t.left) + Ids(t.right)
  }

  /** Balance factors are the height differences and stay within one; sizes are exact. */
  ghost predicate Avl<K>(t: Tree<K>) {
    t.Node? ==>
      && t.bal == Height(t.right) - Height(t.left) && -1 <= t.bal <= 1
      && t.size == 1 + Size(t.left) + Size(t.right)
      && Avl(t.left) && Avl(t.right)
  }

  // ---------- children by direction: 0 left, 1 right ----------

  function Child<K>(t: Tree<K>, dir: nat): Tree<K>
    requires t.Node?
  {
    if dir == 0 then t.left else t.right
  }

  function Link<K>(t: Tree<K>, dir: nat, c: Tree<K>): (r: Tree<K>)
    requires t.Node?
    ensures r.Node?
  {
    if dir == 0 then t.(left := c) else t.(right := c)
  }

  /** one rotation: (a,(b,c)q)p => ((a,b)p,c)q; balance factors are left to the caller */
  function Rotate1<K>(p: Tree<K>, dir: nat): (r: Tree<K>)
    requires dir <= 1 && p.Node? && Child(p, 1 - dir).Node?
    ensures r.Node? && Child(r, dir).Node?
  {
    var q := Child(p, 1 - dir);
    var p' := Link(p.(size := p.size - (q.size - Size(Child(q, dir)))), 1 - dir, Child(q, dir));
    Link(q.(size := p.size), dir, p')
  }

  /** two consecutive rotations: (a,((b,c)r,d)q)p => ((a,b)p,(c,d)q)r */
  function Rotate2<K>(p: Tree<K>, dir: nat): (r: Tree<K>)
    requires dir <= 1 && p.Node? && Child(p, 1 - dir).Node? && Child(Child(p, 1 - dir), dir).Node?
    ensures r.Node?
  {
    var q := Child(p, 1 - dir);
    var r := Child(q, dir);
    var x := Size(Child(r, dir));
    var b1 := if dir == 0 then 1 else -1;
    var balQ := if r.bal == b1 || r.bal == 0 then 0 else b1;
    var balP := if r.bal == b1 then -b1 else 0;
    var p' := Link(p.(size := p.size - (q.size - x), bal := balP), 1 - dir, Child(r, dir));
    var q' := Link(q.(size := q.size - (x + 1), bal := balQ), dir, Child(r, 1 - dir));
    Link(Link(r.(size := p.size, bal := 0), dir, p'), 1 - dir, q')
  }

  // ---------- searching ----------

  /** A key whose comparison with a sequence is first positive, then zero, then negative. */
  ghost predicate Cuts<K>(x: K, s: seq<K>, cmp: Order<K>) {
    && (forall i, j :: 0 <= i < j < |s| && cmp(x, s[j]) > 0 ==> cmp(x, s[i]) > 0)
    && (forall i, j :: 0 <= i < j < |s| && cmp(x, s[i]) < 0 ==> cmp(x, s[j]) < 0)
  }

  /** How many leading elements are below x. */
  function Below<K>(x: K, s: seq<K>, cmp: Order<K>): (k: nat)
    ensures k <= |s|
    ensures forall i :: 0 <= i < k ==> cmp(x, s[i]) > 0
    ensures k < |s| ==> cmp(x, s[k]) <= 0
  {
    if s != [] && cmp(x, s[0]) > 0 then 1 + Below(x, s[1..], cmp) else 0
  }

  /** The node kavl_find stops at. */
  function Find<K>(t: Tree<K>, x: K, cmp: Order<K>): (r: Tree<K>) {
    if t.Nil? then Nil
    else
      var c := cmp(x, t.key);
      if c < 0 then Find(t.left, x, cmp) else if c > 0 then Find(t.right, x, cmp) else t
  }

  /** The number kavl_find reports: elements up to and including the one found, or below x. */
  function Rank<K>(t: Tree<K>, x: K, cmp: Order<K>): int {
    if t.Nil? then 0
    else
      var c := cmp(x, t.key);
      if c < 0 then Rank(t.left, x, cmp)
      else if c > 0 then Size(t.left) + 1 + Rank(t.right, x, cmp)
      else Size(t.left) + 1
  }

  lemma InOrderIndex<K>(t: Tree<K>, i: nat)
    requires t.Node? && i < |InOrder(t)|
    ensures var n := |InOrder(t.left)|;
            InOrder(t)[i] == if i < n then InOrder(t.left)[i] else if i == n then t.key else InOrder(t.right)[i - n - 1]
  {
  }

  lemma CutsParts<K>(t: Tree<K>, x: K, cmp: Order<K>)
    requires t.Node? && Cuts(x, InOrder(t), cmp)
    ensures Cuts(x, InOrder(t.left), cmp) && Cuts(x, InOrder(t.right), cmp)
    ensures cmp(x, t.key) > 0 ==> forall i :: 0 <= i < |InOrder(t.left)| ==> cmp(x, InOrder(t.left)[i]) > 0
    ensures cmp(x, t.key) < 0 ==> forall i :: 0 <= i < |InOrder(t.right)| ==> cmp(x, InOrder(t.right)[i]) < 0
  {
    CutsConcat(x, InOrder(t.left), t.key, InOrder(t.right), cmp);
  }

  lemma CutsConcat<K>(x: K, l: seq<K>, k: K, r: seq<K>, cmp: Order<K>)
    requires Cuts(x, l + [k] + r, cmp)
    ensures Cuts(x, l, cmp) && Cuts(x, r, cmp)
    ensures cmp(x, k) > 0 ==> forall i :: 0 <= i < |l| ==> cmp(x, l[i]) > 0
    ensures cmp(x, k) < 0 ==> forall i :: 0 <= i < |r| ==> cmp(x, r[i]) < 0
  {
    var s := l + [k] + r;
    assert s[|l|] == k;
    assert forall i :: 0 <= i < |l| ==> s[i] == l[i];
    assert forall i :: 0 <= i < |r| ==> r[i] == s[|l| + 1 + i];
  }

  lemma {:induction false} SizeIsLength<K>(t: Tree<K>)
    requires Avl(t)
    ensures Size(t) == |InOrder(t)|
  {
    if t.Node? {
      SizeIsLength(t.left);
      SizeIsLength(t.right);
    }
  }

  /** What the node and the count returned by a search of `s` have to be. */
  ghost predicate Found<K>(r: Tree<K>, rank: int, x: K, s: seq<K>, cmp: Order<K>) {
    if r.Nil? then
      rank == Below(x, s, cmp) && forall i :: 0 <= i < |s| ==> cmp(x, s[i]) != 0
    else
      cmp(x, r.key) == 0 && 1 <= rank <= |s| && s[rank - 1] == r.key
  }

  /** kavl_find succeeds exactly when some element compares equal, and its count is the position. */
  lemma {:induction false} FindCorrect<K>(t: Tree<K>, x: K, cmp: Order<K>)
    requires Avl(t) && Cuts(x, InOrder(t), cmp)
    ensures Found(Find(t, x, cmp), Rank(t, x, cmp), x, InOrder(t), cmp)
    ensures Find(t, x, cmp).Node? ==> Find(t, x, cmp).id in Ids(t)
  {
    if t.Node? {
      CutsParts(t, x, cmp);
      SizeIsLength(t.left);
      if cmp(x, t.key) < 0 {
        FindCorrect(t.left, x, cmp);
        FoundLeft(Find(t.left, x, cmp), Rank(t.left, x, cmp), x, InOrder(t.left), t.key, InOrder(t.right), cmp);
      } else if cmp(x, t.key) > 0 {
        FindCorrect(t.right, x, cmp);
        FoundRight(Find(t.right, x, cmp), Rank(t.right, x, cmp), x, InOrder(t.left), t.key, InOrder(t.right), cmp);
      } else {
        InOrderIndex(t, |InOrder(t.left)|);
      }
    }
  }

  lemma FoundLeft<K>(n: Tree<K>, rank: int, x: K, l: seq<K>, k: K, r: seq<K>, cmp: Order<K>)
    requires cmp(x, k) < 0 && forall i :: 0 <= i < |r| ==> cmp(x, r[i]) < 0
    requires Found(n, rank, x, l, cmp)
    ensures Found(n, rank, x, l + [k] + r, cmp)
  {
    BelowUnique(x, l + [k] + r, cmp, Below(x, l, cmp));
  }

  lemma FoundRight<K>(n: Tree<K>, rank: int, x: K, l: seq<K>, k: K, r: seq<K>, cmp: Order<K>)
    requires cmp(x, k) > 0 && forall i :: 0 <= i < |l| ==> cmp(x, l[i]) > 0
    requires Found(n, rank, x, r, cmp)
    ensures Found(n, |l| + 1 + rank, x, l + [k] + r, cmp)
  {
    BelowUnique(x, l + [k] + r, cmp, |l| + 1 + Below(x, r, cmp));
  }

  lemma {:induction false} BelowUnique<K>(x: K, s: seq<K>, cmp: Order<K>, k: nat)
    requires k <= |s|
    requires forall i :: 0 <= i < k ==> cmp(x, s[i]) > 0
    requires k < |s| ==> cmp(x, s[k]) <= 0
    ensures Below(x, s, cmp) == k
  {
    if k == 0 {
    } else {
      BelowUnique(x, s[1..], cmp, k - 1);
    }
  }

  // ---------- insertion ----------

  function Dir<K>(x: K, t: Tree<K>, cmp: Order<K>): nat
    requires t.Node?
  {
    if cmp(x, t.key) > 0 then 1 else 0
  }

  function Insert<K>(t: Tree<K>, id: nat, x: K, cmp: Order<K>): (r: Step<K>)
    ensures r.tree.Node?
  {
    if t.Nil? then Step(Node(id, x, 0, 1, Nil, Nil), true)
    else
      var dir := Dir(x, t, cmp);
      var Step(c, grew) := Insert(Child(t, dir), id, x, cmp);
      Grown(Link(t.(size := t.size + 1), dir, c), dir, grew)
  }

  /** A child may have grown: adjust the balance factor and rotate when it reaches two. */
  function Grown<K>(t: Tree<K>, dir: nat, grew: bool): (r: Step<K>)
    requires t.Node?
    ensures r.tree.Node?
  {
    if !grew then Step(t, false)
    else
      var t' := t.(bal := t.bal + (if dir == 0 then -1 else 1));
      if -2 < t'.bal < 2 then Step(t', t'.bal != 0) else Step(Rebalance(t'), false)
  }

  predicate CanRebalance<K>(t: Tree<K>) {
    t.Node? &&
    var which := if t.bal < 0 then 1 else 0;
    var q := Child(t, 1 - which);
    q.Node? && (q.bal != (if which == 0 then 1 else -1) ==> Child(q, which).Node?)
  }

  /** The re-balance step of kavl_insert. */
  function Rebalance<K>(t: Tree<K>): (r: Tree<K>)
    requires t.Node?
    ensures r.Node?
  {
    if !CanRebalance(t) then t
    else
      var which := if t.bal < 0 then 1 else 0;
      var b1 := if which == 0 then 1 else -1;
      if Child(t, 1 - which).bal == b1 then
        var q := Rotate1(t, which);
        Link(q.(bal := 0), which, Child(q, which).(bal := 0))
      else
        Rotate2(t, which)
  }

  /** What a subtree may look like after an insertion made it grow. */
  ghost predicate GrownShape<K>(t: Tree<K>) {
    t.Node? && (t.bal == 0 ==> t.left.Nil? && t.right.Nil?)
  }

  /** Rotations and balance factors leave the order of the keys alone. */
  lemma SameOrder<K>(a: Tree<K>, b: Tree<K>)
    requires a.Node? && b.Node? && a.key == b.key && a.left == b.left && a.right == b.right
    ensures InOrder(a) == InOrder(b)
  {
  }

  lemma Rotate1Order<K>(p: Tree<K>, dir: nat)
    requires dir <= 1 && p.Node? && Child(p, 1 - dir).Node?
    ensures InOrder(Rotate1(p, dir)) == InOrder(p)
  {
    var q := Child(p, 1 - dir);
    if dir == 0 {
      Reassociate(InOrder(p.left), p.key, InOrder(q.left), q.key, InOrder(q.right));
    } else {
      Reassociate(InOrder(q.left), q.key, InOrder(q.right), p.key, InOrder(p.right));
    }
  }

  lemma Rotate2Order<K>(p: Tree<K>, dir: nat)
    requires dir <= 1 && p.Node? && Child(p, 1 - dir).Node? && Child(Child(p, 1 - dir), dir).Node?
    ensures InOrder(Rotate2(p, dir)) == InOrder(p)
  {
    var q := Child(p, 1 - dir);
    var r := Child(q, dir);
    assert InOrder(r) == InOrder(r.left) + [r.key] + InOrder(r.right);
    if dir == 0 {
      Reassociate3(InOrder(p.left), p.key, InOrder(r.left), r.key, InOrder(r.right), q.key, InOrder(q.right));
    } else {
      Reassociate3'(InOrder(q.left), q.key, InOrder(r.left), r.key, InOrder(r.right), p.key, InOrder(p.right));
    }
  }

  lemma Reassociate<K>(a: seq<K>, p: K, b: seq<K>, q: K, c: seq<K>)
    ensures a + [p] + (b + [q] + c) == a + [p] + b + [q] + c
  {
  }

  lemma Reassociate3<K>(a: seq<K>, p: K, b: seq<K>, r: K, c: seq<K>, q: K, d: seq<K>)
    ensures a + [p] + ((b + [r] + c) + [q] + d) == (a + [p] + b) + [r] + (c + [q] + d)
  {
  }

  lemma Reassociate3'<K>(a: seq<K>, q: K, b: seq<K>, r: K, c: seq<K>, p: K, d: seq<K>)
    ensures (a + [q] + (b + [r] + c)) + [p] + d == (a + [q] + b) + [r] + (c + [p] + d)
  {
  }

  lemma RebalanceOrder<K>(t: Tree<K>)
    requires t.Node?
    ensures InOrder(Rebalance(t)) == InOrder(t)
  {
    if CanRebalance(t) {
      var which := if t.bal < 0 then 1 else 0;
      if Child(t, 1 - which).bal == (if which == 0 then 1 else -1) {
        Rotate1Order(t, which);
        var q := Rotate1(t, which);
        RelinkOrder(q, which, 0, 0);
      } else {
        Rotate2Order(t, which);
      }
    }
  }

  lemma RelinkOrder<K>(q: Tree<K>, dir: nat, b: int, c: int)
    requires q.Node? && dir <= 1 && Child(q, dir).Node?
    ensures InOrder(Link(q.(bal := b), dir, Child(q, dir).(bal := c))) == InOrder(q)
  {
    SameOrder(Child(q, dir), Child(q, dir).(bal := c));
  }

  lemma GrownOrder<K>(t: Tree<K>, dir: nat, grew: bool)
    requires t.Node?
    ensures InOrder(Grown(t, dir, grew).tree) == InOrder(t)
  {
    if grew {
      var t' := t.(bal := t.bal + (if dir == 0 then -1 else 1));
      SameOrder(t, t');
      if !(-2 < t'.bal < 2) {
        RebalanceOrder(t');
      }
    }
  }

  /** One level of the way back up. */
  lemma GrownAvl<K>(t: Tree<K>, dir: nat, c: Tree<K>, grew: bool)
    requires t.Node? && Avl(t) && dir <= 1 && Avl(c)
    requires Height(c) == Height(Child(t, dir)) + (if grew then 1 else 0)
    requires Size(c) == Size(Child(t, dir)) + 1
    requires grew ==> GrownShape(c)
    ensures var Step(r, g) := Grown(Link(t.(size := t.size + 1), dir, c), dir, grew);
            && Avl(r) && Height(r) == Height(t) + (if g then 1 else 0) && Size(r) == Size(t) + 1
            && (g ==> GrownShape(r))
  {
    if grew && t.bal == (if dir == 0 then -1 else 1) {
      GrownOver(t, dir, c);
    } else {
      GrownFlat(t, dir, c, grew);
    }
  }

  lemma GrownFlat<K>(t: Tree<K>, dir: nat, c: Tree<K>, grew: bool)
    requires t.Node? && Avl(t) && dir <= 1 && Avl(c)
    requires Height(c) == Height(Child(t, dir)) + (if grew then 1 else 0)
    requires Size(c) == Size(Child(t, dir)) + 1
    requires grew ==> t.bal != (if dir == 0 then -1 else 1)
    ensures var Step(r, g) := Grown(Link(t.(size := t.size + 1), dir, c), dir, grew);
            && Avl(r) && Height(r) == Height(t) + (if g then 1 else 0) && Size(r) == Size(t) + 1
            && (g ==> GrownShape(r))
  {
    GrownStays(t, dir, c, grew);
    var b := if grew then t.bal + (if dir == 0 then -1 else 1) else t.bal;
    var l, r := if dir == 0 then c else t.left, if dir == 0 then t.right else c;
    OneMoreNode(t, b, l, r, grew && b != 0);
  }

  lemma GrownStays<K>(t: Tree<K>, dir: nat, c: Tree<K>, grew: bool)
    requires t.Node? && dir <= 1 && -1 <= t.bal <= 1
    requires grew ==> t.bal != (if dir == 0 then -1 else 1)
    ensures var b := if grew then t.bal + (if dir == 0 then -1 else 1) else t.bal;
            var l, r := if dir == 0 then c else t.left, if dir == 0 then t.right else c;
            Grown(Link(t.(size := t.size + 1), dir, c), dir, grew) == Step(Node(t.id, t.key, b, t.size + 1, l, r), grew && b != 0)
  {
  }

  lemma OneMoreNode<K>(t: Tree<K>, b: int, l: Tree<K>, r: Tree<K>, grew: bool)
    requires t.Node? && Avl(t) && Avl(l) && Avl(r)
    requires b == Height(r) - Height(l) && -1 <= b <= 1 && Size(l) + Size(r) == Size(t.left) + Size(t.right) + 1
    requires Max(Height(l), Height(r)) == Max(Height(t.left), Height(t.right)) + (if grew then 1 else 0)
    requires grew ==> b != 0
    ensures var n := Node(t.id, t.key, b, t.size + 1, l, r);
            && Avl(n) && Height(n) == Height(t) + (if grew then 1 else 0) && Size(n) == Size(t) + 1
            && (grew ==> GrownShape(n))
  {
  }

  lemma AvlNode<K>(id: nat, key: K, bal: int, size: int, l: Tree<K>, r: Tree<K>)
    requires Avl(l) && Avl(r) && bal == Height(r) - Height(l) && -1 <= bal <= 1 && size == 1 + Size(l) + Size(r)
    ensures var t := Node(id, key, bal, size, l, r); Avl(t) && Height(t) == 1 + Max(Height(l), Height(r))
  {
  }

  lemma GrownOver<K>(t: Tree<K>, dir: nat, c: Tree<K>)
    requires t.Node? && Avl(t) && dir <= 1 && Avl(c)
    requires Height(c) == Height(Child(t, dir)) + 1 && Size(c) == Size(Child(t, dir)) + 1 && GrownShape(c)
    requires t.bal == (if dir == 0 then -1 else 1)
    ensures var Step(r, g) := Grown(Link(t.(size := t.size + 1), dir, c), dir, true);
            && Avl(r) && Height(r) == Height(t) + (if g then 1 else 0) && Size(r) == Size(t) + 1
            && (g ==> GrownShape(r))
  {
    var t1 := Link(t.(size := t.size + 1), dir, c);
    var t2 := t1.(bal := 2 * t.bal);
    assert Heavy(t2, 1 - dir) && Height(t2) == Height(t) + 1;
    assert Grown(t1, dir, true) == Step(Rebalance(t2), false);
    if c.bal == t.bal {
      SingleRotation(t2, 1 - dir);
    } else {
      DoubleRotation(t2, 1 - dir);
    }
  }

  ghost predicate Heavy<K>(t: Tree<K>, which: nat) {
    && t.Node? && which <= 1
    && t.bal == (if which == 0 then 2 else -2) && t.bal == Height(t.right) - Height(t.left)
    && t.size == 1 + Size(t.left) + Size(t.right) && Avl(t.left) && Avl(t.right)
  }

  lemma SingleRotation<K>(t: Tree<K>, which: nat)
    requires Heavy(t, which)
    requires Child(t, 1 - which).Node? && Child(t, 1 - which).bal == (if which == 0 then 1 else -1)
    ensures Avl(Rebalance(t)) && Height(Rebalance(t)) == Height(t) - 1 && Size(Rebalance(t)) == Size(t)
  {
    if which == 0 {
      SingleLeft(t);
    } else {
      SingleRight(t);
    }
  }

  lemma SingleLeft<K>(t: Tree<K>)
    requires Heavy(t, 0) && t.right.Node? && t.right.bal == 1
    ensures Avl(Rebalance(t)) && Height(Rebalance(t)) == Height(t) - 1 && Size(Rebalance(t)) == Size(t)
  {
    var q := t.right;
    var size := t.size - (q.size - Size(q.left));
    AvlNode(t.id, t.key, 0, size, t.left, q.left);
    AvlNode(q.id, q.key, 0, t.size, Node(t.id, t.key, 0, size, t.left, q.left), q.right);
  }

  lemma SingleRight<K>(t: Tree<K>)
    requires Heavy(t, 1) && t.left.Node? && t.left.bal == -1
    ensures Avl(Rebalance(t)) && Height(Rebalance(t)) == Height(t) - 1 && Size(Rebalance(t)) == Size(t)
  {
    var q := t.left;
    var size := t.size - (q.size - Size(q.right));
    AvlNode(t.id, t.key, 0, size, q.right, t.right);
    AvlNode(q.id, q.key, 0, t.size, q.left, Node(t.id, t.key, 0, size, q.right, t.right));
  }

  lemma DoubleRotation<K>(t: Tree<K>, which: nat)
    requires Heavy(t, which)
    requires Child(t, 1 - which).Node? && Child(t, 1 - which).bal == (if which == 0 then -1 else 1)
    ensures Avl(Rebalance(t)) && Height(Rebalance(t)) == Height(t) - 1 && Size(Rebalance(t)) == Size(t)
  {
    if which == 0 {
      DoubleLeft(t);
    } else {
      DoubleRight(t);
    }
  }

  lemma DoubleLeft<K>(t: Tree<K>)
    requires Heavy(t, 0) && t.right.Node? && t.right.bal == -1
    ensures Avl(Rebalance(t)) && Height(Rebalance(t)) == Height(t) - 1 && Size(Rebalance(t)) == Size(t)
  {
    var q, r := t.right, t.right.left;
    assert Avl(q) && Avl(r);
    var balP, sizeP := if r.bal == 1 then -1 else 0, t.size - (q.size - Size(r.left));
    var balQ, sizeQ := if r.bal == -1 then 1 else 0, q.size - (Size(r.left) + 1);
    AvlNode(t.id, t.key, balP, sizeP, t.left, r.left);
    AvlNode(q.id, q.key, balQ, sizeQ, r.right, q.right);
    AvlNode(r.id, r.key, 0, t.size, Node(t.id, t.key, balP, sizeP, t.left, r.left),
            Node(q.id, q.key, balQ, sizeQ, r.right, q.right));
  }

  lemma DoubleRight<K>(t: Tree<K>)
    requires Heavy(t, 1) && t.left.Node? && t.left.bal == 1
    ensures Avl(Rebalance(t)) && Height(Rebalance(t)) == Height(t) - 1 && Size(Rebalance(t)) == Size(t)
  {
    var q, r := t.left, t.left.right;
    assert Avl(q) && Avl(r);
    var balP, sizeP := if r.bal == -1 then 1 else 0, t.size - (q.size - Size(r.right));
    var balQ, sizeQ := if r.bal == 1 then -1 else 0, q.size - (Size(r.right) + 1);
    AvlNode(t.id, t.key, balP, sizeP, r.right, t.right);
    AvlNode(q.id, q.key, balQ, sizeQ, q.left, r.left);
    AvlNode(r.id, r.key, 0, t.size, Node(q.id, q.key, balQ, sizeQ, q.left, r.left),
            Node(t.id, t.key, balP, sizeP, r.right, t.right));
  }

  /** Insertion of a key that no element equals: the tree stays balanced with exact sizes, and the key
      sits behind exactly the elements below it. */
  lemma {:induction false} InsertCorrect<K>(t: Tree<K>, id: nat, x: K, cmp: Order<K>)
    requires Avl(t) && Cuts(x, InOrder(t), cmp) && Find(t, x, cmp).Nil?
    ensures var Step(r, g) := Insert(t, id, x, cmp);
            && Avl(r) && Height(r) == Height(t) + (if g then 1 else 0) && Size(r) == Size(t) + 1
            && (g ==> GrownShape(r))
    ensures InOrder(Insert(t, id, x, cmp).tree) == InsertAt(InOrder(t), Below(x, InOrder(t), cmp), x)
  {
    if t.Node? {
      var dir := Dir(x, t, cmp);
      var c := Child(t, dir);
      CutsParts(t, x, cmp);
      InsertCorrect(c, id, x, cmp);
      var Step(c', grew) := Insert(c, id, x, cmp);
      GrownAvl(t, dir, c', grew);
      GrownOrder(Link(t.(size := t.size + 1), dir, c'), dir, grew);
      InsertedBelow(x, InOrder(t.left), t.key, InOrder(t.right), cmp);
    }
  }

  function InsertAt<K>(s: seq<K>, k: nat, x: K): seq<K>
    requires k <= |s|
  {
    s[..k] + [x] + s[k..]
  }

  lemma InsertedBelow<K>(x: K, l: seq<K>, k: K, r: seq<K>, cmp: Order<K>)
    requires cmp(x, k) != 0 && Cuts(x, l + [k] + r, cmp)
    ensures var s := l + [k] + r;
            InsertAt(s, Below(x, s, cmp), x) ==
            if cmp(x, k) > 0 then l + [k] + InsertAt(r, Below(x, r, cmp), x) else InsertAt(l, Below(x, l, cmp), x) + [k] + r
  {
    CutsConcat(x, l, k, r, cmp);
    if cmp(x, k) > 0 {
      var b := Below(x, r, cmp);
      BelowUnique(x, l + [k] + r, cmp, |l| + 1 + b);
      InsertRight(x, l, k, r, b);
    } else {
      var b := Below(x, l, cmp);
      BelowUnique(x, l + [k] + r, cmp, b);
      InsertLeft(x, l, k, r, b);
    }
  }

  lemma InsertRight<K>(x: K, l: seq<K>, k: K, r: seq<K>, b: nat)
    requires b <= |r|
    ensures InsertAt(l + [k] + r, |l| + 1 + b, x) == l + [k] + InsertAt(r, b, x)
  {
    var s := l + [k] + r;
    assert s[..|l| + 1 + b] == l + [k] + r[..b];
    assert s[|l| + 1 + b..] == r[b..];
  }

  lemma InsertLeft<K>(x: K, l: seq<K>, k: K, r: seq<K>, b: nat)
    requires b <= |l|
    ensures InsertAt(l + [k] + r, b, x) == InsertAt(l, b, x) + [k] + r
  {
    var s := l + [k] + r;
    assert s[..b] == l[..b];
    assert s[b..] == l[b..] + [k] + r;
  }

  lemma LinkIds<K>(t: Tree<K>, dir: nat, c: Tree<K>)
    requires t.Node?
    ensures Ids(Link(t, dir, c)) == {t.id} + Ids(c) + Ids(if dir == 0 then t.right else t.left)
  {
  }

  lemma ChildIds<K>(t: Tree<K>, dir: nat)
    requires t.Node? && dir <= 1
    ensures Ids(t) == {t.id} + Ids(Child(t, dir)) + Ids(Child(t, 1 - dir))
  {
  }

  /** Only the structure decides which nodes a tree has. */
  lemma SameIds<K>(a: Tree<K>, b: Tree<K>)
    requires a.Node? && b.Node? && a.id == b.id && a.left == b.left && a.right == b.right
    ensures Ids(a) == Ids(b)
  {
  }

  lemma Rotate1Ids<K>(p: Tree<K>, dir: nat)
    requires dir <= 1 && p.Node? && Child(p, 1 - dir).Node?
    ensures Ids(Rotate1(p, dir)) == Ids(p)
  {
    var q := Child(p, 1 - dir);
    ChildIds(p, dir);
    ChildIds(q, dir);
    var p0 := p.(size := p.size - (q.size - Size(Child(q, dir))));
    LinkIds(p0, 1 - dir, Child(q, dir));
    LinkIds(q.(size := p.size), dir, Link(p0, 1 - dir, Child(q, dir)));
  }

  lemma Rotate2Ids<K>(p: Tree<K>, dir: nat)
    requires dir <= 1 && p.Node? && Child(p, 1 - dir).Node? && Child(Child(p, 1 - dir), dir).Node?
    ensures Ids(Rotate2(p, dir)) == Ids(p)
  {
    var q := Child(p, 1 - dir);
    var r := Child(q, dir);
    ChildIds(p, dir);
    ChildIds(q, dir);
    ChildIds(r, dir);
    var u := Rotate2(p, dir);
    ChildIds(u, dir);
    ChildIds(Child(u, dir), dir);
    ChildIds(Child(u, 1 - dir), dir);
  }

  lemma RebalanceIds<K>(t: Tree<K>)
    requires t.Node?
    ensures Ids(Rebalance(t)) == Ids(t)
  {
    if CanRebalance(t) {
      var which := if t.bal < 0 then 1 else 0;
      if Child(t, 1 - which).bal == (if which == 0 then 1 else -1) {
        Rotate1Ids(t, which);
        var q := Rotate1(t, which);
        ChildIds(q, which);
        SameIds(Child(q, which), Child(q, which).(bal := 0));
        LinkIds(q.(bal := 0), which, Child(q, which).(bal := 0));
      } else {
        Rotate2Ids(t, which);
      }
    }
  }

  lemma GrownIds<K>(t: Tree<K>, dir: nat, grew: bool)
    requires t.Node?
    ensures Ids(Grown(t, dir, grew).tree) == Ids(t)
  {
    if grew {
      var t' := t.(bal := t.bal + (if dir == 0 then -1 else 1));
      SameIds(t, t');
      if !(-2 < t'.bal < 2) {
        RebalanceIds(t');
      }
    }
  }

  lemma LinkedIds<K>(t: Tree<K>, dir: nat, c: Tree<K>, id: nat)
    requires t.Node? && dir <= 1 && Ids(c) == Ids(Child(t, dir)) + {id}
    ensures Ids(Link(t.(size := t.size + 1), dir, c)) == Ids(t) + {id}
  {
    ChildIds(t, dir);
    LinkIds(t.(size := t.size + 1), dir, c);
  }

  lemma {:induction false} InsertIds<K>(t: Tree<K>, id: nat, x: K, cmp: Order<K>)
    ensures Ids(Insert(t, id, x, cmp).tree) == Ids(t) + {id}
  {
    if t.Node? {
      var dir := Dir(x, t, cmp);
      InsertIds(Child(t, dir), id, x, cmp);
      var Step(c, grew) := Insert(Child(t, dir), id, x, cmp);
      LinkedIds(t, dir, c, id);
      GrownIds(Link(t.(size := t.size + 1), dir, c), dir, grew);
    }
  }

  // ---------- height ----------

  function Fib(n: nat): nat {
    if n < 2 then n else Fib(n - 1) + Fib(n - 2)
  }

  lemma {:induction false} FibMonotone(m: nat, n: nat)
    requires m <= n
    ensures Fib(m) <= Fib(n)
  {
    if m < n {
      FibMonotone(m, n - 1);
      if n == 1 {
      } else {
        assert Fib(n) == Fib(n - 1) + Fib(n - 2);
      }
    }
  }

  /** A balanced tree of height h has at least Fib(h + 2) - 1 nodes. */
  lemma {:induction false} FibonacciBound<K>(t: Tree<K>)
    requires Avl(t)
    ensures Fib(Height(t) + 2) <= Size(t) + 1
  {
    if t.Node? {
      FibonacciBound(t.left);
      FibonacciBound(t.right);
      var h := Height(t);
      assert h <= Height(t.left) + 2 && h <= Height(t.right) + 2;
      FibMonotone(h, Height(t.left) + 2);
      FibMonotone(h, Height(t.right) + 2);
      assert Fib(h + 2) == Fib(h + 1) + Fib(h);
    }
  }

  lemma Fib48()
    ensures Fib(48) == 4807526976
  {
    assert Fib(10) == 55 && Fib(11) == 89;
    assert Fib(20) == 6765 && Fib(21) == 10946;
    assert Fib(30) == 832040 && Fib(31) == 1346269;
    assert Fib(40) == 102334155 && Fib(41) == 165580141;
  }

  /** A tree whose size fits `unsigned` is at most 45 high, so no path array of KAVL_MAX_DEPTH = 64 overflows. */
  lemma HeightFits<K>(t: Tree<K>)
    requires Avl(t) && Size(t) < 0x1_0000_0000
    ensures Height(t) <= 45
  {
    FibonacciBound(t);
    Fib48();
    if 46 <= Height(t) {
      FibMonotone(48, Height(t) + 2);
    }
  }

  // ---------- deletion ----------

  /** The child in direction `dir` may have lost a level. */
  function Shrunk<K>(t: Tree<K>, dir: nat, shrunk: bool): (r: Step<K>)
    requires t.Node?
    ensures r.tree.Node?
  {
    if !shrunk then Step(t, false)
    else
      var b1 := if dir == 0 then 1 else -1;
      var t' := t.(bal := t.bal + b1);
      if t'.bal == b1 then Step(t', false)
      else if t'.bal == 2 * b1 then Unload(t', dir)
      else Step(t', true)
  }

  predicate CanUnload<K>(t: Tree<K>, dir: nat) {
    t.Node? && dir <= 1 &&
    var r := Child(t, 1 - dir);
    r.Node? && (r.bal == (if dir == 0 then -1 else 1) ==> Child(r, dir).Node?)
  }

  /** The rotation step of kavl_erase, and whether the height went down. */
  function Unload<K>(t: Tree<K>, dir: nat): (r: Step<K>)
    requires t.Node?
    ensures r.tree.Node?
  {
    if !CanUnload(t, dir) then Step(t, true)
    else
      var b1 := if dir == 0 then 1 else -1;
      var r := Child(t, 1 - dir);
      if r.bal == -b1 then Step(Rotate2(t, dir), true)
      else
        var u := Rotate1(t, dir);
        var q := Child(u, dir);
        if r.bal == 0 then Step(Link(u.(bal := -b1), dir, q.(bal := b1)), false)
        else Step(Link(u.(bal := 0), dir, q.(bal := 0)), true)
  }

  /** Take the leftmost node out of a subtree. */
  function RemoveMin<K>(t: Tree<K>): (r: Taken<K>)
    requires t.Node?
    ensures r.min.Node?
  {
    if t.left.Nil? then Taken(t.right, t, true)
    else
      var Taken(l, m, shrunk) := RemoveMin(t.left);
      var Step(t', shrunk') := Shrunk(t.(size := t.size - 1, left := l), 0, shrunk);
      Taken(t', m, shrunk')
  }

  /** Remove the root of a subtree: its left child, or its successor from the right subtree, takes over. */
  function RemoveRoot<K>(p: Tree<K>): (r: Step<K>)
    requires p.Node?
  {
    if p.right.Nil? then Step(p.left, true)
    else
      var Taken(rest, m, shrunk) := RemoveMin(p.right);
      Shrunk(Node(m.id, m.key, p.bal, p.size - 1, p.left, rest), 1, shrunk)
  }

  /** Remove the node a search for x stops at; the tree must have one. */
  function Remove<K>(t: Tree<K>, x: K, cmp: Order<K>): (r: Step<K>) {
    if t.Nil? then Step(Nil, false)
    else
      var c := cmp(x, t.key);
      if c == 0 then RemoveRoot(t)
      else
        var dir := if c > 0 then 1 else 0;
        var Step(c', shrunk) := Remove(Child(t, dir), x, cmp);
        Shrunk(Link(t.(size := t.size - 1), dir, c'), dir, shrunk)
  }

  /** `res` is a balanced tree with the elements `s`, one node fewer than `t`, and says truthfully whether
      it is one level lower than `t`. */
  ghost predicate OneFewer<K>(t: Tree<K>, s: seq<K>, res: Step<K>) {
    Lowered(t, res) && InOrder(res.tree) == s
  }

  ghost predicate Lowered<K>(t: Tree<K>, res: Step<K>) {
    Avl(res.tree) && Height(res.tree) == Height(t) - (if res.level then 1 else 0) && Size(res.tree) == Size(t) - 1
  }

  lemma ShrunkOrder<K>(t: Tree<K>, dir: nat, shrunk: bool)
    requires t.Node?
    ensures InOrder(Shrunk(t, dir, shrunk).tree) == InOrder(t)
  {
    if shrunk {
      var t' := t.(bal := t.bal + (if dir == 0 then 1 else -1));
      SameOrder(t, t');
      UnloadOrder(t', dir);
    }
  }

  lemma UnloadOrder<K>(t: Tree<K>, dir: nat)
    requires t.Node?
    ensures InOrder(Unload(t, dir).tree) == InOrder(t)
  {
    if CanUnload(t, dir) {
      var b1 := if dir == 0 then 1 else -1;
      var r := Child(t, 1 - dir);
      if r.bal == -b1 {
        Rotate2Order(t, dir);
      } else {
        Rotate1Order(t, dir);
        RelinkOrder(Rotate1(t, dir), dir, -b1, b1);
        RelinkOrder(Rotate1(t, dir), dir, 0, 0);
      }
    }
  }

  /** One level of the way back up after a deletion. */
  lemma ShrunkCorrect<K>(t: Tree<K>, dir: nat, c: Tree<K>, shrunk: bool)
    requires t.Node? && Avl(t) && dir <= 1 && Lowered(Child(t, dir), Step(c, shrunk))
    ensures var t1 := Link(t.(size := t.size - 1), dir, c);
            OneFewer(t, InOrder(t1), Shrunk(t1, dir, shrunk))
  {
    ShrunkAvl(t, dir, c, shrunk);
    ShrunkOrder(Link(t.(size := t.size - 1), dir, c), dir, shrunk);
  }

  lemma ShrunkAvl<K>(t: Tree<K>, dir: nat, c: Tree<K>, shrunk: bool)
    requires t.Node? && Avl(t) && dir <= 1 && Lowered(Child(t, dir), Step(c, shrunk))
    ensures Lowered(t, Shrunk(Link(t.(size := t.size - 1), dir, c), dir, shrunk))
  {
    var b1 := if dir == 0 then 1 else -1;
    if shrunk && t.bal == b1 {
      var t1 := Link(t.(size := t.size - 1), dir, c);
      var t2 := t1.(bal := 2 * b1);
      assert Shrunk(t1, dir, shrunk) == Unload(t2, dir);
      assert Heavy(t2, dir);
      UnloadCorrect(t2, dir);
    } else {
      ShrunkFlat(t, dir, c, shrunk);
    }
  }

  lemma ShrunkFlat<K>(t: Tree<K>, dir: nat, c: Tree<K>, shrunk: bool)
    requires t.Node? && Avl(t) && dir <= 1 && Lowered(Child(t, dir), Step(c, shrunk))
    requires shrunk ==> t.bal != (if dir == 0 then 1 else -1)
    ensures Lowered(t, Shrunk(Link(t.(size := t.size - 1), dir, c), dir, shrunk))
  {
    var b := if shrunk then t.bal + (if dir == 0 then 1 else -1) else t.bal;
    if dir == 0 {
      AvlNode(t.id, t.key, b, t.size - 1, c, t.right);
    } else {
      AvlNode(t.id, t.key, b, t.size - 1, t.left, c);
    }
  }

  lemma UnloadCorrect<K>(t: Tree<K>, dir: nat)
    requires Heavy(t, dir) && Child(t, 1 - dir).Node?
    ensures var Step(u, s) := Unload(t, dir);
            Avl(u) && Height(u) == Height(t) - (if s then 1 else 0) && Size(u) == Size(t)
  {
    var b1 := if dir == 0 then 1 else -1;
    var r := Child(t, 1 - dir);
    assert Avl(r);
    if r.bal == -b1 {
      assert Unload(t, dir) == Step(Rebalance(t), true);
      DoubleRotation(t, dir);
    } else if r.bal == b1 {
      assert Unload(t, dir) == Step(Rebalance(t), true);
      SingleRotation(t, dir);
    } else {
      EvenRotation(t, dir);
    }
  }

  lemma EvenRotation<K>(t: Tree<K>, dir: nat)
    requires Heavy(t, dir)
    requires Child(t, 1 - dir).Node? && Child(t, 1 - dir).bal == 0
    ensures var Step(u, s) := Unload(t, dir); !s && Avl(u) && Height(u) == Height(t) && Size(u) == Size(t)
  {
    var q := Child(t, 1 - dir);
    var size := t.size - (q.size - Size(Child(q, dir)));
    if dir == 0 {
      AvlNode(t.id, t.key, 1, size, t.left, q.left);
      AvlNode(q.id, q.key, -1, t.size, Node(t.id, t.key, 1, size, t.left, q.left), q.right);
    } else {
      AvlNode(t.id, t.key, -1, size, q.right, t.right);
      AvlNode(q.id, q.key, 1, t.size, q.left, Node(t.id, t.key, -1, size, q.right, t.right));
    }
  }

  lemma {:induction false} RemoveMinCorrect<K>(t: Tree<K>)
    requires t.Node? && Avl(t)
    ensures var Taken(r, m, shrunk) := RemoveMin(t);
            InOrder(t) != [] && m.key == InOrder(t)[0] && OneFewer(t, InOrder(t)[1..], Step(r, shrunk))
  {
    if t.left.Node? {
      RemoveMinCorrect(t.left);
      var Taken(l, m, shrunk) := RemoveMin(t.left);
      ShrunkCorrect(t, 0, l, shrunk);
      TailLeft(InOrder(t.left), t.key, InOrder(t.right));
    } else {
      TailAlone(t.key, InOrder(t.right));
    }
  }

  lemma TailLeft<K>(l: seq<K>, key: K, r: seq<K>)
    requires l != []
    ensures (l + [key] + r)[0] == l[0] && (l + [key] + r)[1..] == l[1..] + [key] + r
  {
  }

  lemma TailAlone<K>(key: K, r: seq<K>)
    ensures ([] + [key] + r)[0] == key && ([] + [key] + r)[1..] == r
  {
  }

  lemma RemoveRootCorrect<K>(p: Tree<K>)
    requires p.Node? && Avl(p)
    ensures OneFewer(p, InOrder(p.left) + InOrder(p.right), RemoveRoot(p))
  {
    if p.right.Node? {
      RemoveMinCorrect(p.right);
      var Taken(rest, m, shrunk) := RemoveMin(p.right);
      SuccessorTakesOver(p, m, rest, shrunk);
    } else {
      assert InOrder(p.left) + InOrder(p.right) == InOrder(p.left);
    }
  }

  lemma SuccessorTakesOver<K>(p: Tree<K>, m: Tree<K>, rest: Tree<K>, shrunk: bool)
    requires p.Node? && Avl(p) && m.Node? && InOrder(p.right) != []
    requires m.key == InOrder(p.right)[0] && OneFewer(p.right, InOrder(p.right)[1..], Step(rest, shrunk))
    ensures OneFewer(p, InOrder(p.left) + InOrder(p.right),
                     Shrunk(Node(m.id, m.key, p.bal, p.size - 1, p.left, rest), 1, shrunk))
  {
    var p' := Node(m.id, m.key, p.bal, p.size, p.left, p.right);
    ShrunkCorrect(p', 1, rest, shrunk);
    var s := InOrder(p.right);
    assert s == [m.key] + s[1..];
    MoveMin(InOrder(p.left), m.key, s[1..]);
    assert Link(p'.(size := p'.size - 1), 1, rest) == Node(m.id, m.key, p.bal, p.size - 1, p.left, rest);
  }

  lemma MoveMin<K>(l: seq<K>, m: K, r: seq<K>)
    ensures l + [m] + r == l + ([m] + r)
    ensures ([m] + r)[0] == m && ([m] + r)[1..] == r
  {
  }

  function RemoveAt<K>(s: seq<K>, k: nat): seq<K>
    requires k < |s|
  {
    s[..k] + s[k + 1..]
  }

  /** Deletion takes out exactly the element found and keeps the tree balanced. */
  lemma {:induction false} RemoveCorrect<K>(t: Tree<K>, x: K, cmp: Order<K>)
    requires Avl(t) && Cuts(x, InOrder(t), cmp) && Find(t, x, cmp).Node?
    ensures 1 <= Rank(t, x, cmp) <= |InOrder(t)|
    ensures OneFewer(t, RemoveAt(InOrder(t), Rank(t, x, cmp) - 1), Remove(t, x, cmp))
  {
    FindCorrect(t, x, cmp);
    SizeIsLength(t.left);
    var c := cmp(x, t.key);
    if c == 0 {
      RemoveRootCorrect(t);
      RemoveMiddle(InOrder(t.left), t.key, InOrder(t.right));
    } else {
      CutsParts(t, x, cmp);
      RemoveCorrect(Child(t, if c > 0 then 1 else 0), x, cmp);
      RemoveStep(t, x, cmp);
    }
  }

  lemma RemoveMiddle<K>(l: seq<K>, key: K, r: seq<K>)
    ensures RemoveAt(l + [key] + r, |l|) == l + r
  {
  }

  lemma RemoveStep<K>(t: Tree<K>, x: K, cmp: Order<K>)
    requires t.Node? && Avl(t) && cmp(x, t.key) != 0 && Size(t.left) == |InOrder(t.left)|
    requires var c := Child(t, if cmp(x, t.key) > 0 then 1 else 0);
             1 <= Rank(c, x, cmp) <= |InOrder(c)| &&
             OneFewer(c, RemoveAt(InOrder(c), Rank(c, x, cmp) - 1), Remove(c, x, cmp))
    ensures 1 <= Rank(t, x, cmp) <= |InOrder(t)|
    ensures OneFewer(t, RemoveAt(InOrder(t), Rank(t, x, cmp) - 1), Remove(t, x, cmp))
  {
    var dir := if cmp(x, t.key) > 0 then 1 else 0;
    var c := Child(t, dir);
    var Step(c', shrunk) := Remove(c, x, cmp);
    RankInside(t, x, cmp);
    OrderInside(t, dir, c', Rank(c, x, cmp) - 1);
    ShrunkCorrect(t, dir, c', shrunk);
  }

  lemma RankInside<K>(t: Tree<K>, x: K, cmp: Order<K>)
    requires t.Node? && cmp(x, t.key) != 0 && Size(t.left) == |InOrder(t.left)|
    requires var c := Child(t, if cmp(x, t.key) > 0 then 1 else 0); 1 <= Rank(c, x, cmp) <= |InOrder(c)|
    ensures 1 <= Rank(t, x, cmp) <= |InOrder(t)|
    ensures Rank(t, x, cmp) == if cmp(x, t.key) > 0 then |InOrder(t.left)| + 1 + Rank(t.right, x, cmp) else Rank(t.left, x, cmp)
  {
  }

  lemma OrderInside<K>(t: Tree<K>, dir: nat, c: Tree<K>, k: nat)
    requires t.Node? && dir <= 1 && k < |InOrder(Child(t, dir))| && InOrder(c) == RemoveAt(InOrder(Child(t, dir)), k)
    ensures InOrder(Link(t.(size := t.size - 1), dir, c)) ==
            RemoveAt(InOrder(t), if dir == 0 then k else |InOrder(t.left)| + 1 + k)
  {
    RemoveInside(InOrder(t.left), t.key, InOrder(t.right), k, dir);
  }

  lemma RemoveInside<K>(l: seq<K>, key: K, r: seq<K>, k: nat, dir: nat)
    requires k < if dir == 0 then |l| else |r|
    ensures var s := l + [key] + r;
            RemoveAt(s, if dir == 0 then k else |l| + 1 + k) ==
            if dir == 0 then RemoveAt(l, k) + [key] + r else l + [key] + RemoveAt(r, k)
  {
    var s := l + [key] + r;
    if dir == 0 {
      assert s[..k] == l[..k] && s[k + 1..] == l[k + 1..] + [key] + r;
    } else {
      assert s[..|l| + 1 + k] == l + [key] + r[..k] && s[|l| + 1 + k + 1..] == r[k + 1..];
    }
  }
}
