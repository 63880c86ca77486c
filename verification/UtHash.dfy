/** The intrusive hash table of nfq/uthash.h.  Every element is on the list in application order and in the chain of
    its bucket; memory holds one pair of links per element for each of the two.
 */
module UtHash {
  import opened Bits
  import opened Linked

  const HASH_INITIAL_NUM_BUCKETS_LOG2 := 5
  const HASH_BKT_CAPACITY_THRESH := 10

  /** UT_hash_bucket */
  datatype Bucket = Bucket(hhHead: nat, count: nat, expandMult: nat)

  // ---------- bucket numbers ----------

  /** HASH_TO_BKT masks the hash with the number of buckets less one. */
  function ToBkt(hashv: nat, log2: nat): (b: nat)
    ensures b < Pow2(log2) && b == Modulo(hashv, Pow2(log2))
  {
    AndIsModulo(hashv, log2);
    And(hashv, Pow2(log2) - 1)
  }

  function Modulo(x: nat, m: nat): (r: nat)
    requires 0 < m
    ensures r < m
  {
    x % m
  }

  lemma {:induction false} AndIsModulo(x: nat, k: nat)
    ensures And(x, Pow2(k) - 1) == Modulo(x, Pow2(k))
  {
    if k == 0 {
      AndUnfold(x, 0);
      AndZero(x);
    } else {
      var m := Pow2(k - 1) - 1;
      AndIsModulo(x / 2, k - 1);
      AndUnfold(x, 2 * m + 1);
      HalfOfDouble(m, 1);
      ModuloHalf(x, Pow2(k - 1));
    }
  }

  lemma {:induction false} AndZero(x: nat)
    ensures And(x, 0) == 0
  {
    if x != 0 {
      AndZero(x / 2);
    }
  }

  lemma ModuloHalf(x: nat, p: nat)
    requires 0 < p
    ensures Modulo(x, 2 * p) == x % 2 + 2 * Modulo(x / 2, p)
  {
    var q := ModuloParts(x / 2, p);
    MulDouble(q, p);
    ModuloIs(x, q, x % 2 + 2 * Modulo(x / 2, p), 2 * p);
  }

  lemma ModuloParts(x: nat, m: nat) returns (q: nat)
    requires 0 < m
    ensures x == q * m + Modulo(x, m)
  {
    q := x / m;
  }

  lemma ModuloIs(x: nat, q: nat, r: nat, m: nat)
    requires r < m && x == q * m + r
    ensures Modulo(x, m) == r
  {
    SameBlock(x / m, q, m, x);
  }

  // ---------- elements and buckets ----------

  ghost predicate InBucket(chains: seq<seq<nat>>, b: nat, x: nat) {
    b < |chains| && x in chains[b]
  }

  /** Bucket b is its chain. */
  ghost predicate BucketOk(bkt: Links, buckets: seq<Bucket>, chains: seq<seq<nat>>, b: nat)
    requires b < |buckets| && b < |chains|
  {
    List(bkt, chains[b]) && buckets[b].hhHead == First(chains[b]) && buckets[b].count == |chains[b]|
  }

  ghost predicate BucketsOk(bkt: Links, buckets: seq<Bucket>, chains: seq<seq<nat>>) {
    |buckets| == |chains| && forall b :: 0 <= b < |chains| ==> BucketOk(bkt, buckets, chains, b)
  }

  /** The chains hold exactly the elements of the table, each in the bucket of its hash. */
  ghost predicate Sorted(chains: seq<seq<nat>>, elems: seq<nat>, hashes: map<nat, nat>, log2: nat) {
    && |chains| == Pow2(log2) && (forall x :: x in elems ==> x in hashes)
    && (forall b: nat, x: nat :: InBucket(chains, b, x) ==> x in elems && b == ToBkt(hashes[x], log2))
    && (forall x :: x in elems ==> InBucket(chains, ToBkt(hashes[x], log2), x))
  }

  function EmptyBuckets(n: nat): (r: seq<Bucket>)
    ensures |r| == n && forall b :: 0 <= b < n ==> r[b] == Bucket(NULL, 0, 0)
  {
    seq(n, _ => Bucket(NULL, 0, 0))
  }

  ghost function EmptyChains(n: nat): (r: seq<seq<nat>>)
    ensures |r| == n && forall b :: 0 <= b < n ==> r[b] == []
  {
    seq(n, _ => [])
  }

  /** Items per bucket of a table of 2^lb buckets, rounded up: (n >> lb) plus one if low bits are left over. */
  function IdealChainMaxlen(n: nat, lb: nat): nat {
    Net(n, lb) + (if And(n, Pow2(lb) - 1) != 0 then 1 else 0)
  }

  class HashTable<K(==)> {
    const hash: K -> nat
    var app: Links               // hh.prev and hh.next of every element
    var bkt: Links               // hh.hh_prev and hh.hh_next
    var keys: map<nat, K>
    var hashes: map<nat, nat>    // hh.hashv
    var head: nat
    var tail: nat
    var buckets: seq<Bucket>
    var log2: nat
    var numItems: nat
    var ineffExpands: nat
    var noexpand: bool
    ghost var order: seq<nat>
    ghost var chains: seq<seq<nat>>

    ghost predicate KeysOk()
      reads this
    {
      KeysOf(order)
    }

    /** Different elements have different keys, and every hash is that of the key. */
    ghost predicate KeysOf(elems: seq<nat>)
      reads this
    {
      && (forall x :: x in elems ==> x in keys && x in hashes && hashes[x] == hash(keys[x]))
      && (forall x, y :: x in elems && y in elems && keys[x] == keys[y] ==> x == y)
    }

    ghost predicate TableOk()
      reads this
    {
      BucketsOk(bkt, buckets, chains) && Sorted(chains, order, hashes, log2) && numItems == |order|
    }

    ghost predicate Valid()
      reads this
    {
      && List(app, order) && head == First(order) && KeysOk() && bkt.Keys == app.Keys
      && (order != [] ==> tail == Last(order) && TableOk())
    }

    /** An empty table over elements that are allocated in memory. */
    constructor (elements: set<nat>, hash: K -> nat)
      ensures Valid() && order == [] && this.hash == hash && app.Keys == elements
    {
      this.hash := hash;
      app := map x | x in elements :: Link(NULL, NULL);
      bkt := map x | x in elements :: Link(NULL, NULL);
      keys, hashes := map[], map[];
      head, tail, buckets, log2, numItems, ineffExpands, noexpand := NULL, NULL, [], 0, 0, 0, false;
      order, chains := [], [];
    }

    /** HASH_FIND */
    method Find(key: K) returns (out: nat)
      requires Valid()
      ensures out != NULL ==> out in order && keys[out] == key
      ensures out == NULL ==> forall x :: x in order ==> keys[x] != key
    {
      out := NULL;
      if head == NULL {
        return;
      }
      var hashv := hash(key);
      var b := ToBkt(hashv, log2);
      ghost var s, i := chains[b], 0;
      assert BucketOk(bkt, buckets, chains, b);
      out := buckets[b].hhHead;
      while out != NULL
        invariant i <= |s| && out == (if i < |s| then s[i] else NULL)
        invariant forall j :: 0 <= j < i ==> s[j] in keys && keys[s[j]] != key
        decreases |s| - i
      {
        assert InBucket(chains, b, out) && LinkedAt(bkt, s, i);
        if hashes[out] == hashv && keys[out] == key {
          return;
        }
        out := bkt[out].next;
        i := i + 1;
      }
      forall x | x in order
        ensures keys[x] != key
      {
        assert InBucket(chains, ToBkt(hashes[x], log2), x);
      }
    }

    // ---------- adding ----------

    /** HASH_ADD: at the end of the list, at the front of its bucket; the key must be new. */
    method Add(x: nat, key: K)
      requires Valid() && x != NULL && x in app && x !in order
      requires forall y :: y in order ==> keys[y] != key
      modifies this
      ensures Valid() && order == old(order) + [x] && keys == old(keys)[x := key] && app.Keys == old(app).Keys
    {
      ghost var elems := order;
      SetKey(x, key);
      if head == NULL {
        AddFirst(x);
      } else {
        AppendApp(x);
      }
      AddToTable(x, elems);
    }

    method SetKey(x: nat, key: K)
      requires KeysOk() && x !in order && forall y :: y in order ==> keys[y] != key
      requires order != [] ==> Sorted(chains, order, hashes, log2)
      modifies this`keys, this`hashes
      ensures keys == old(keys)[x := key] && hashes == old(hashes)[x := hash(key)] && KeysOf(order + [x])
      ensures order != [] ==> Sorted(chains, order, hashes, log2)
    {
      keys, hashes := keys[x := key], hashes[x := hash(key)];
      if order != [] {
        SortedHashes(chains, order, hashes, old(hashes), log2);
      }
    }

    method AddFirst(x: nat)
      requires order == [] && x in app && x != NULL
      modifies this`app, this`head, this`order
      modifies this`tail, this`log2, this`buckets, this`numItems, this`ineffExpands, this`noexpand, this`chains
      ensures List(app, order) && head == x == tail && order == [x] && app.Keys == old(app).Keys
      ensures BucketsOk(bkt, buckets, chains) && Sorted(chains, [], hashes, log2) && numItems == 0
    {
      app := app[x := Link(NULL, NULL)];
      MakeTable(x);
      head, order := x, [x];
    }

    /** HASH_APPEND_LIST */
    method AppendApp(x: nat)
      requires List(app, order) && order != [] && tail == Last(order) && head == First(order)
      requires x in app && x != NULL && x !in order
      modifies this`app, this`tail, this`order
      ensures List(app, order) && tail == x && head == First(order) && order == old(order) + [x] && app.Keys == old(app).Keys
    {
      Append(app, order, x);
      app, tail, order := Appended(app, tail, x), x, order + [x];
    }

    /** HASH_MAKE_TABLE */
    method MakeTable(x: nat)
      modifies this`tail, this`log2, this`buckets, this`numItems, this`ineffExpands, this`noexpand, this`chains
      ensures tail == x && BucketsOk(bkt, buckets, chains) && Sorted(chains, [], hashes, log2) && numItems == 0
    {
      tail, log2 := x, HASH_INITIAL_NUM_BUCKETS_LOG2;
      buckets := EmptyBuckets(Pow2(log2));
      numItems, ineffExpands, noexpand := 0, 0, false;
      chains := EmptyChains(Pow2(log2));
    }

    /** HASH_ADD_TO_TABLE and HASH_ADD_TO_BKT */
    method AddToTable(x: nat, ghost elems: seq<nat>)
      requires List(app, order) && head == First(order) && KeysOk() && bkt.Keys == app.Keys && tail == Last(order)
      requires order == elems + [x] && x in app
      requires BucketsOk(bkt, buckets, chains) && Sorted(chains, elems, hashes, log2) && numItems == |elems|
      modifies this`bkt, this`buckets, this`chains, this`numItems, this`log2, this`ineffExpands, this`noexpand
      ensures Valid()
    {
      numItems := numItems + 1;
      var b := PushBucket(x, elems);
      if buckets[b].count >= (buckets[b].expandMult + 1) * HASH_BKT_CAPACITY_THRESH && !noexpand {
        ExpandBuckets();
      }
    }

    /** HASH_ADD_TO_BKT without the test for expansion. */
    method PushBucket(x: nat, ghost elems: seq<nat>) returns (b: nat)
      requires List(app, order) && KeysOk() && bkt.Keys == app.Keys && order == elems + [x] && x in app
      requires BucketsOk(bkt, buckets, chains) && Sorted(chains, elems, hashes, log2)
      modifies this`bkt, this`buckets, this`chains
      ensures BucketsOk(bkt, buckets, chains) && Sorted(chains, order, hashes, log2) && b < |buckets|
      ensures bkt.Keys == old(bkt).Keys
    {
      b := ToBkt(hashes[x], log2);
      assert BucketOk(bkt, buckets, chains, b);
      LastIsNew(elems, x, order);
      var c := buckets[b].(hhHead := x, count := buckets[b].count + 1);
      BucketsPush(bkt, buckets, chains, elems, hashes, log2, b, x, c);
      SortedPush(chains, elems, hashes, log2, x);
      bkt := Pushed(bkt, buckets[b].hhHead, x);
      buckets := buckets[b := c];
      chains := chains[b := [x] + chains[b]];
    }

    // ---------- doubling the buckets ----------

    /** The elements of one old bucket move to their new ones. */
    method MoveBucket(ghost links: Links, ghost olds: seq<seq<nat>>, i: nat, hhHead: nat, buckets': seq<Bucket>, nonideal: nat,
                      idealChainMaxlen: nat, ghost chains': seq<seq<nat>>, ghost done: seq<nat>)
      returns (newBuckets: seq<Bucket>, nonideal': nat, ghost newChains: seq<seq<nat>>, ghost done': seq<nat>)
      requires Moving(links, bkt, olds, buckets', chains', done, hashes, log2 + 1, i, 0) && bkt.Keys == links.Keys
      requires i < |olds| && hhHead == First(olds[i])
      modifies this`bkt
      ensures Moving(links, bkt, olds, newBuckets, newChains, done', hashes, log2 + 1, i + 1, 0) && bkt.Keys == links.Keys
    {
      newBuckets, newChains, done', nonideal' := buckets', chains', done, nonideal;
      var thh := hhHead;
      ghost var p := 0;
      while thh != NULL
        invariant p <= |olds[i]| && thh == (if p < |olds[i]| then olds[i][p] else NULL) && bkt.Keys == links.Keys
        invariant Moving(links, bkt, olds, newBuckets, newChains, done', hashes, log2 + 1, i, p)
        decreases |olds[i]| - p
      {
        LinkedNext(links, bkt, olds, newBuckets, newChains, done', hashes, log2 + 1, i, p);
        var next := bkt[thh].next;
        var b := ToBkt(hashes[thh], log2 + 1);
        var c := newBuckets[b].(hhHead := thh, count := newBuckets[b].count + 1);
        if c.count > idealChainMaxlen {
          nonideal' := nonideal' + 1;
          if c.count > c.expandMult * idealChainMaxlen {
            c := c.(expandMult := c.expandMult + 1);
          }
        }
        MoveOne(links, bkt, olds, newBuckets, newChains, done', hashes, log2 + 1, i, p, c);
        bkt := Pushed(bkt, newBuckets[b].hhHead, thh);
        newBuckets, newChains := newBuckets[b := c], newChains[b := [thh] + newChains[b]];
        thh := next;
        done', p := done' + [olds[i][p]], p + 1;
      }
      NextBucket(links, bkt, olds, newBuckets, newChains, done', hashes, log2 + 1, i);
    }

    method MoveAll(idealChainMaxlen: nat) returns (newBuckets: seq<Bucket>, nonideal: nat, ghost newChains: seq<seq<nat>>)
      requires TableOk()
      modifies this`bkt
      ensures bkt.Keys == old(bkt).Keys
      ensures BucketsOk(bkt, newBuckets, newChains) && Sorted(newChains, order, hashes, log2 + 1)
    {
      ghost var links := bkt;
      newBuckets, nonideal, newChains := EmptyBuckets(Pow2(log2 + 1)), 0, EmptyChains(Pow2(log2 + 1));
      ghost var done: seq<nat> := [];
      NothingMoved(bkt, buckets, chains, newBuckets, newChains, order, hashes, log2);
      for i := 0 to |buckets|
        invariant Moving(links, bkt, chains, newBuckets, newChains, done, hashes, log2 + 1, i, 0) && bkt.Keys == links.Keys
      {
        assert BucketOk(links, buckets, chains, i);
        newBuckets, nonideal, newChains, done :=
          MoveBucket(links, chains, i, buckets[i].hhHead, newBuckets, nonideal, idealChainMaxlen, newChains, done);
      }
      AllMoved(links, bkt, chains, newBuckets, newChains, done, order, hashes, log2);
    }

    /** HASH_EXPAND_BUCKETS: every element moves to its bucket in a table twice as large. */
    method ExpandBuckets()
      requires Valid() && order != []
      modifies this`bkt, this`buckets, this`chains, this`log2, this`ineffExpands, this`noexpand
      ensures Valid() && log2 == old(log2) + 1
    {
      var nonideal := Rehash();
      ineffExpands := if nonideal > numItems / 2 then ineffExpands + 1 else 0;
      if ineffExpands > 1 {
        noexpand := true;
      }
    }

    method Rehash() returns (nonideal: nat)
      requires Valid() && order != []
      modifies this`bkt, this`buckets, this`chains, this`log2
      ensures Valid() && log2 == old(log2) + 1
    {
      var newBuckets;
      ghost var newChains;
      newBuckets, nonideal, newChains := MoveAll(IdealChainMaxlen(numItems, log2 + 1));
      log2, buckets, chains := log2 + 1, newBuckets, newChains;
    }

    // ---------- deleting ----------

    /** HASH_DELETE: out of the list and out of its bucket; with the last element the table itself goes. */
    method Delete(x: nat)
      requires Valid() && x in order
      modifies this
      ensures Valid() && order == Without(old(order), IndexOf(old(order), x))
      ensures keys == old(keys) && app.Keys == old(app).Keys
    {
      Neighbours(app, order, IndexOf(order, x));
      if app[x].prev == NULL && app[x].next == NULL {
        head := NULL;
        order := Without(order, IndexOf(order, x));
      } else {
        DeleteFromBoth(x);
      }
    }

    method DeleteFromBoth(x: nat)
      requires Valid() && x in order
      modifies this
      ensures Valid() && order == Without(old(order), IndexOf(old(order), x))
      ensures keys == old(keys) && app.Keys == old(app).Keys
    {
      ghost var elems := order;
      Unlist(x);
      WithoutElements(elems, IndexOf(elems, x));
      DelInBkt(x, elems);
      numItems := numItems - 1;
    }

    /** Out of the list in application order. */
    method Unlist(x: nat)
      requires List(app, order) && head == First(order) && order != [] && tail == Last(order) && x in order
      modifies this`app, this`head, this`tail, this`order
      ensures order == Without(old(order), IndexOf(old(order), x)) && app.Keys == old(app).Keys
      ensures List(app, order) && head == First(order) && (order != [] ==> tail == Last(order))
      ensures |order| == |old(order)| - 1
    {
      ghost var k := IndexOf(order, x);
      Neighbours(app, order, k);
      Unlink(app, order, k);
      TailAfter(order, k);
      if x == tail {
        tail := app[x].prev;
      }
      if app[x].prev == NULL {
        head := app[x].next;
      }
      app := Unlinked(app, x);
      order := Without(order, k);
    }

    /** HASH_DEL_IN_BKT */
    method DelInBkt(x: nat, ghost elems: seq<nat>)
      requires BucketsOk(bkt, buckets, chains) && Sorted(chains, elems, hashes, log2) && x in elems && NoRepeats(elems)
      modifies this`bkt, this`buckets, this`chains
      ensures BucketsOk(bkt, buckets, chains) && Sorted(chains, Without(elems, IndexOf(elems, x)), hashes, log2)
      ensures bkt.Keys == old(bkt).Keys
    {
      var b := ToBkt(hashes[x], log2);
      assert InBucket(chains, b, x) && BucketOk(bkt, buckets, chains, b);
      ghost var j := IndexOf(chains[b], x);
      BucketsTake(bkt, buckets, chains, elems, hashes, log2, b, j);
      SortedTake(chains, elems, hashes, log2, x, b, j);
      var c := buckets[b].(count := buckets[b].count - 1);
      if c.hhHead == x {
        c := c.(hhHead := bkt[x].next);
      }
      bkt := Unlinked(bkt, x);
      buckets := buckets[b := c];
      chains := chains[b := Without(chains[b], j)];
    }

    // ---------- iterating ----------

    /** HASH_ITER with deletion of the current element: every element is visited exactly once, in order. */
    method Sweep(doomed: nat -> bool) returns (visited: seq<nat>)
      requires Valid()
      modifies this
      ensures Valid() && visited == old(order) && order == Kept(old(order), doomed)
      ensures keys == old(keys) && app.Keys == old(app).Keys
    {
      visited := [];
      ghost var all := order;
      var el: nat, tmp: nat := head, NULL;
      if head != NULL {
        Neighbours(app, order, 0);
        tmp := app[head].next;
      }
      SweepStarts(all, doomed);
      ghost var n: nat := 0;
      while el != NULL
        invariant n <= |all| && visited == all[..n]
        invariant Sweeping(all, n, doomed, el, tmp) && keys == old(keys) && app.Keys == old(app).Keys
        decreases |all| - n
      {
        SweepMore(all, n, el);
        visited := visited + [el];
        el, tmp := VisitOne(el, tmp, doomed, all, n);
        n := n + 1;
      }
      SweepEnds(all, n, doomed, el);
    }

    /** Before the element at position n of the original list is visited. */
    ghost predicate Sweeping(all: seq<nat>, n: nat, doomed: nat -> bool, el: nat, tmp: nat)
      requires n <= |all|
      reads this
    {
      && Valid() && order == Kept(all[..n], doomed) + all[n..] && NULL !in all
      && el == (if n < |all| then all[n] else NULL) && (n < |all| ==> tmp == Behind(all, n))
    }

    /** The loop body, perhaps deleting the element, and the step to the one saved before. */
    method VisitOne(el: nat, tmp: nat, doomed: nat -> bool, ghost all: seq<nat>, ghost n: nat) returns (el': nat, tmp': nat)
      requires n < |all| && Sweeping(all, n, doomed, el, tmp)
      modifies this
      ensures Sweeping(all, n + 1, doomed, el', tmp') && keys == old(keys) && app.Keys == old(app).Keys
    {
      SweepStep(all, n, doomed, order);
      if doomed(el) {
        Delete(el);
      }
      el', tmp' := tmp, tmp;
      if tmp != NULL {
        SweepNext(app, order, all, n + 1, doomed);
        tmp' := app[tmp].next;
      }
    }
  }

  /** Position of x. */
  ghost function IndexOf(s: seq<nat>, x: nat): (k: nat)
    requires x in s
    ensures k < |s| && s[k] == x
  {
    if s[0] == x then 0 else 1 + IndexOf(s[1..], x)
  }

  lemma LastIsNew(elems: seq<nat>, x: nat, order: seq<nat>)
    requires order == elems + [x] && NoRepeats(order) && NULL !in order
    ensures x != NULL && x !in elems && x in order
  {
    assert order[|elems|] == x;
    forall i | 0 <= i < |elems|
      ensures elems[i] != x
    {
      assert order[i] == elems[i];
    }
  }

  // ---------- what a push does to the table ----------

  lemma SortedHashes(chains: seq<seq<nat>>, elems: seq<nat>, hashes: map<nat, nat>, hashes0: map<nat, nat>, log2: nat)
    requires Sorted(chains, elems, hashes0, log2)
    requires forall y :: y in elems ==> y in hashes && hashes[y] == hashes0[y]
    ensures Sorted(chains, elems, hashes, log2)
  {
  }

  lemma BucketsPush(bkt: Links, buckets: seq<Bucket>, chains: seq<seq<nat>>, elems: seq<nat>, hashes: map<nat, nat>, log2: nat,
                    b: nat, x: nat, c: Bucket)
    requires BucketsOk(bkt, buckets, chains) && Sorted(chains, elems, hashes, log2) && b < |chains|
    requires x in bkt && x != NULL && x !in elems
    requires c.hhHead == x && c.count == buckets[b].count + 1
    ensures buckets[b].hhHead != NULL ==> buckets[b].hhHead in bkt && buckets[b].hhHead in elems
    ensures BucketsOk(Pushed(bkt, buckets[b].hhHead, x), buckets[b := c], chains[b := [x] + chains[b]])
  {
    assert BucketOk(bkt, buckets, chains, b);
    assert x in chains[b] ==> InBucket(chains, b, x);
    Push(bkt, chains[b], x);
    var head := buckets[b].hhHead;
    assert head != NULL ==> InBucket(chains, b, head);
    var bkt', buckets', chains' := Pushed(bkt, head, x), buckets[b := c], chains[b := [x] + chains[b]];
    forall i | 0 <= i < |chains'|
      ensures BucketOk(bkt', buckets', chains', i)
    {
      assert BucketOk(bkt, buckets, chains, i);
      if i != b {
        forall y | y in chains[i] && y in bkt
          ensures y in bkt' && bkt'[y] == bkt[y]
        {
          assert InBucket(chains, i, y);
          assert y == head ==> InBucket(chains, b, y);
        }
        ListFrame(bkt, bkt', chains[i]);
      }
    }
  }

  lemma SortedPush(chains: seq<seq<nat>>, elems: seq<nat>, hashes: map<nat, nat>, log2: nat, x: nat)
    requires Sorted(chains, elems, hashes, log2) && x in hashes && x !in elems
    ensures var b := ToBkt(hashes[x], log2); Sorted(chains[b := [x] + chains[b]], elems + [x], hashes, log2)
  {
    var b := ToBkt(hashes[x], log2);
    var chains' := chains[b := [x] + chains[b]];
    forall i: nat, y: nat | InBucket(chains', i, y)
      ensures y in elems + [x] && i == ToBkt(hashes[y], log2)
    {
      assert InBucket(chains, i, y) || (i == b && y == x);
    }
    forall y | y in elems + [x]
      ensures InBucket(chains', ToBkt(hashes[y], log2), y)
    {
      assert y != x ==> InBucket(chains, ToBkt(hashes[y], log2), y);
    }
  }

  // ---------- moving the elements to a larger table ----------

  /** Every element of the old chains is known, and the old chains are still what `links` says. */
  ghost predicate OldChains(links: Links, chains: seq<seq<nat>>, hashes: map<nat, nat>) {
    && (forall b :: 0 <= b < |chains| ==> List(links, chains[b]))
    && (forall b: nat, x: nat :: InBucket(chains, b, x) ==> x in links && x in hashes && x != NULL)
    && (forall a: nat, b: nat, x: nat :: InBucket(chains, a, x) && InBucket(chains, b, x) ==> a == b)
  }

  /** All of the first i old chains and the first p elements of the next have been moved, and nothing else. */
  ghost predicate Processed(chains: seq<seq<nat>>, done: seq<nat>, i: nat, p: nat) {
    && (forall x :: x in done ==> exists b: nat :: InBucket(chains, b, x))
    && (forall b: nat, x: nat :: InBucket(chains, b, x) ==>
          (x in done <==> b < i || (b == i && p <= |chains[b]| && x in chains[b][..p])))
  }

  ghost predicate Moving(links: Links, bkt: Links, chains: seq<seq<nat>>, buckets': seq<Bucket>, chains': seq<seq<nat>>,
                         done: seq<nat>, hashes: map<nat, nat>, log2: nat, i: nat, p: nat) {
    && OldChains(links, chains, hashes) && Processed(chains, done, i, p)
    && BucketsOk(bkt, buckets', chains') && Sorted(chains', done, hashes, log2)
    && (forall x :: x in links && x !in done ==> x in bkt && bkt[x] == links[x])
  }

  lemma NothingMoved(bkt: Links, buckets: seq<Bucket>, chains: seq<seq<nat>>, buckets': seq<Bucket>, chains': seq<seq<nat>>, order: seq<nat>,
                     hashes: map<nat, nat>, log2: nat)
    requires BucketsOk(bkt, buckets, chains) && Sorted(chains, order, hashes, log2)
    requires |buckets'| == |chains'| == Pow2(log2 + 1)
    requires forall b :: 0 <= b < |chains'| ==> chains'[b] == [] && buckets'[b] == Bucket(NULL, 0, 0)
    ensures Moving(bkt, bkt, chains, buckets', chains', [], hashes, log2 + 1, 0, 0)
  {
    forall b | 0 <= b < |chains|
      ensures List(bkt, chains[b])
    {
      assert BucketOk(bkt, buckets, chains, b);
    }
    forall b: nat, x: nat | InBucket(chains, b, x)
      ensures x in bkt && x != NULL
    {
      var k :| 0 <= k < |chains[b]| && chains[b][k] == x;
      assert LinkedAt(bkt, chains[b], k);
    }
  }

  /** The element that comes next has not been touched yet. */
  lemma LinkedNext(links: Links, bkt: Links, chains: seq<seq<nat>>, buckets': seq<Bucket>, chains': seq<seq<nat>>,
                   done: seq<nat>, hashes: map<nat, nat>, log2: nat, i: nat, p: nat)
    requires Moving(links, bkt, chains, buckets', chains', done, hashes, log2, i, p)
    requires i < |chains| && p < |chains[i]|
    ensures var x := chains[i][p];
            x !in done && x in bkt && x in hashes && x != NULL && bkt[x].next == Behind(chains[i], p)
  {
    var x := chains[i][p];
    assert InBucket(chains, i, x);
    assert LinkedAt(links, chains[i], p);
    assert forall k :: 0 <= k < p ==> chains[i][..p][k] == chains[i][k] && chains[i][k] != x;
  }

  lemma MoveOne(links: Links, bkt: Links, chains: seq<seq<nat>>, buckets': seq<Bucket>, chains': seq<seq<nat>>,
                done: seq<nat>, hashes: map<nat, nat>, log2: nat, i: nat, p: nat, c: Bucket)
    requires Moving(links, bkt, chains, buckets', chains', done, hashes, log2, i, p)
    requires i < |chains| && p < |chains[i]| && chains[i][p] in hashes
    requires var b := ToBkt(hashes[chains[i][p]], log2);
             b < |buckets'| && c.hhHead == chains[i][p] && c.count == buckets'[b].count + 1
    ensures var x := chains[i][p]; var b := ToBkt(hashes[x], log2);
            && x in bkt && (buckets'[b].hhHead != NULL ==> buckets'[b].hhHead in bkt)
            && Moving(links, Pushed(bkt, buckets'[b].hhHead, x), chains, buckets'[b := c],
                      chains'[b := [x] + chains'[b]], done + [x], hashes, log2, i, p + 1)
  {
    var x := chains[i][p];
    var b := ToBkt(hashes[x], log2);
    LinkedNext(links, bkt, chains, buckets', chains', done, hashes, log2, i, p);
    BucketsPush(bkt, buckets', chains', done, hashes, log2, b, x, c);
    SortedPush(chains', done, hashes, log2, x);
    ProcessedMore(chains, done, i, p);
    assert InBucket(chains, i, x);
  }

  lemma ProcessedMore(chains: seq<seq<nat>>, done: seq<nat>, i: nat, p: nat)
    requires Processed(chains, done, i, p) && i < |chains| && p < |chains[i]|
    requires forall a: nat, b: nat, x: nat :: InBucket(chains, a, x) && InBucket(chains, b, x) ==> a == b
    ensures Processed(chains, done + [chains[i][p]], i, p + 1)
  {
    var s := chains[i];
    assert InBucket(chains, i, s[p]);
    assert s[..p + 1] == s[..p] + [s[p]];
  }

  lemma NextBucket(links: Links, bkt: Links, chains: seq<seq<nat>>, buckets': seq<Bucket>, chains': seq<seq<nat>>,
                   done: seq<nat>, hashes: map<nat, nat>, log2: nat, i: nat)
    requires i < |chains| && Moving(links, bkt, chains, buckets', chains', done, hashes, log2, i, |chains[i]|)
    ensures Moving(links, bkt, chains, buckets', chains', done, hashes, log2, i + 1, 0)
  {
    assert chains[i][..|chains[i]|] == chains[i];
  }

  lemma AllMoved(links: Links, bkt: Links, chains: seq<seq<nat>>, buckets': seq<Bucket>, chains': seq<seq<nat>>,
                 done: seq<nat>, order: seq<nat>, hashes: map<nat, nat>, log2: nat)
    requires Moving(links, bkt, chains, buckets', chains', done, hashes, log2 + 1, |chains|, 0)
    requires Sorted(chains, order, hashes, log2)
    ensures BucketsOk(bkt, buckets', chains') && Sorted(chains', order, hashes, log2 + 1)
  {
    forall x
      ensures x in done <==> x in order
    {
      if x in order {
        assert InBucket(chains, ToBkt(hashes[x], log2), x);
      }
    }
  }

  // ---------- taking an element out of the table ----------

  /** The new tail is what Without leaves last. */
  lemma TailAfter(s: seq<nat>, k: nat)
    requires NoRepeats(s) && k < |s|
    ensures k + 1 == |s| <==> s[k] == s[|s| - 1]
    ensures |Without(s, k)| == |s| - 1
  {
  }

  lemma BucketsTake(bkt: Links, buckets: seq<Bucket>, chains: seq<seq<nat>>, elems: seq<nat>, hashes: map<nat, nat>, log2: nat,
                    b: nat, j: nat)
    requires BucketsOk(bkt, buckets, chains) && Sorted(chains, elems, hashes, log2)
    requires b < |chains| && j < |chains[b]|
    ensures var x := chains[b][j];
            && x in bkt && (bkt[x].prev != NULL ==> bkt[x].prev in bkt) && (bkt[x].next != NULL ==> bkt[x].next in bkt)
            && 0 < buckets[b].count
            && BucketsOk(Unlinked(bkt, x),
                         buckets[b := Bucket(if buckets[b].hhHead == x then bkt[x].next else buckets[b].hhHead,
                                             buckets[b].count - 1, buckets[b].expandMult)],
                         chains[b := Without(chains[b], j)])
  {
    var x, s := chains[b][j], chains[b];
    assert BucketOk(bkt, buckets, chains, b);
    Unlink(bkt, s, j);
    Neighbours(bkt, s, j);
    var c := Bucket(if buckets[b].hhHead == x then bkt[x].next else buckets[b].hhHead, buckets[b].count - 1, buckets[b].expandMult);
    assert buckets[b].hhHead == x <==> j == 0;
    var bkt', buckets', chains' := Unlinked(bkt, x), buckets[b := c], chains[b := Without(s, j)];
    forall i | 0 <= i < |chains'|
      ensures BucketOk(bkt', buckets', chains', i)
    {
      assert BucketOk(bkt, buckets, chains, i);
      if i != b {
        forall y | y in chains[i] && y in bkt
          ensures y in bkt' && bkt'[y] == bkt[y]
        {
          OtherBucket(bkt, chains, elems, hashes, log2, b, j, i, y);
        }
        ListFrame(bkt, bkt', chains[i]);
      }
    }
  }

  /** Neighbours in a bucket are not in any other. */
  lemma OtherBucket(bkt: Links, chains: seq<seq<nat>>, elems: seq<nat>, hashes: map<nat, nat>, log2: nat, b: nat, j: nat, i: nat, y: nat)
    requires Sorted(chains, elems, hashes, log2) && b < |chains| && j < |chains[b]| && List(bkt, chains[b])
    requires i < |chains| && i != b && y in chains[i]
    requires chains[b][j] in bkt
    ensures y != bkt[chains[b][j]].prev || y == NULL
    ensures y != bkt[chains[b][j]].next || y == NULL
  {
    Neighbours(bkt, chains[b], j);
    assert InBucket(chains, i, y);
    assert InBucket(chains, b, y) ==> i == b;
    assert j > 0 ==> InBucket(chains, b, chains[b][j - 1]);
    assert j + 1 < |chains[b]| ==> InBucket(chains, b, chains[b][j + 1]);
  }

  lemma SortedTake(chains: seq<seq<nat>>, elems: seq<nat>, hashes: map<nat, nat>, log2: nat, x: nat, b: nat, j: nat)
    requires Sorted(chains, elems, hashes, log2) && x in elems && NoRepeats(elems)
    requires b < |chains| && j < |chains[b]| && chains[b][j] == x && NoRepeats(chains[b])
    ensures Sorted(chains[b := Without(chains[b], j)], Without(elems, IndexOf(elems, x)), hashes, log2)
  {
    var k := IndexOf(elems, x);
    WithoutElements(elems, k);
    WithoutElements(chains[b], j);
    var chains', elems' := chains[b := Without(chains[b], j)], Without(elems, k);
    assert InBucket(chains, b, x);
    forall i: nat, y: nat
      ensures InBucket(chains', i, y) <==> InBucket(chains, i, y) && y != x
    {
      assert InBucket(chains, i, x) ==> i == b;
    }
  }

  // ---------- sweeping ----------

  ghost function Kept(s: seq<nat>, doomed: nat -> bool): seq<nat> {
    if s == [] then []
    else Kept(s[..|s| - 1], doomed) + (if doomed(s[|s| - 1]) then [] else [s[|s| - 1]])
  }

  lemma SweepStarts(all: seq<nat>, doomed: nat -> bool)
    ensures all[..0] == [] && Kept(all[..0], doomed) + all[0..] == all
  {
  }

  lemma SweepMore(all: seq<nat>, n: nat, el: nat)
    requires n <= |all| && el == (if n < |all| then all[n] else NULL) && el != NULL
    ensures n < |all| && all[..n + 1] == all[..n] + [el]
  {
  }

  lemma SweepEnds(all: seq<nat>, n: nat, doomed: nat -> bool, el: nat)
    requires n <= |all| && el == (if n < |all| then all[n] else NULL) && el == NULL
    requires forall k :: 0 <= k < |all| ==> all[k] != NULL
    ensures n == |all| && all[..n] == all && Kept(all[..n], doomed) + all[n..] == Kept(all, doomed)
  {
  }

  lemma {:induction false} KeptElements(s: seq<nat>, doomed: nat -> bool, x: nat)
    ensures x in Kept(s, doomed) <==> x in s && !doomed(x)
  {
    if s != [] {
      KeptElements(s[..|s| - 1], doomed, x);
      assert s == s[..|s| - 1] + [s[|s| - 1]];
    }
  }

  /** The element at position n of the original list is the first of those not visited yet. */
  lemma SweepStep(all: seq<nat>, n: nat, doomed: nat -> bool, order: seq<nat>)
    requires n < |all| && order == Kept(all[..n], doomed) + all[n..] && NoRepeats(order)
    ensures all[n] in order && IndexOf(order, all[n]) == |Kept(all[..n], doomed)|
    ensures all[..n + 1] == all[..n] + [all[n]]
    ensures Kept(all[..n + 1], doomed) + all[n + 1..] ==
            if doomed(all[n]) then Without(order, IndexOf(order, all[n])) else order
  {
    SweepIndex(Kept(all[..n], doomed), all, n, order);
    assert all[..n + 1][..n] == all[..n];
    TakeOut(Kept(all[..n], doomed), all[n], all[n + 1..]);
  }

  lemma SweepIndex(kept: seq<nat>, all: seq<nat>, n: nat, order: seq<nat>)
    requires n < |all| && order == kept + all[n..] && NoRepeats(order)
    ensures all[n] in order && IndexOf(order, all[n]) == |kept| && all[n..] == [all[n]] + all[n + 1..]
    ensures order == kept + ([all[n]] + all[n + 1..])
  {
    assert order[|kept|] == all[n];
    IndexUnique(order, |kept|);
  }

  lemma TakeOut(a: seq<nat>, x: nat, b: seq<nat>)
    ensures Without(a + ([x] + b), |a|) == a + b
    ensures a + [x] + b == a + ([x] + b)
    ensures a + [] + b == a + b
  {
  }

  lemma IndexUnique(s: seq<nat>, k: nat)
    requires NoRepeats(s) && k < |s|
    ensures s[k] in s && IndexOf(s, s[k]) == k
  {
    var i := IndexOf(s, s[k]);
  }

  /** The link from the next element still leads to its successor. */
  lemma SweepNext(app: Links, order: seq<nat>, all: seq<nat>, n: nat, doomed: nat -> bool)
    requires n < |all| && order == Kept(all[..n], doomed) + all[n..] && List(app, order)
    ensures all[n] in app && app[all[n]].next == Behind(all, n)
  {
    var i := |Kept(all[..n], doomed)|;
    assert order[i] == all[n];
    assert LinkedAt(app, order, i);
  }
}
