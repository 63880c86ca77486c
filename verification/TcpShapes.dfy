/** What each strategy of nfq/desync.c is named after, said of the segments alone: which bytes of the packet come in which
    order, and where the fakes lie.  Every plan of TcpPlans has the shape of its strategy.
 */
module TcpShapes {
  import opened Bytes
  import opened FillPattern
  import opened TcpStream
  import opened TcpPlans

  /** A real segment with the packet's bytes [from, to) behind `ovl` bytes of the pattern, numbered so that they lie right
      before those bytes. */
  ghost predicate Brings(s: Segment, d: Dissect, from: nat, to: nat, ovl: nat, pattern: seq<byte>)
    requires pattern != []
  {
    && !s.fake && from <= to <= |d.payload|
    && Rel(s.start, d.th) == from - ovl && |s.payload| == ovl + (to - from)
    && s.payload[ovl..] == d.payload[from..to]
    && forall k :: 0 <= k < ovl ==> s.payload[k] == PatternAt(pattern, k)
  }

  /** A fake in the place of the packet's bytes [from, to). */
  predicate Mimics(s: Segment, d: Dissect, from: nat, to: nat) {
    s.fake && Rel(s.start, d.th) == from && from + |s.payload| == to
  }

  lemma PartBrings(d: Dissect, from: nat, to: nat, ovl: nat, pattern: seq<byte>)
    requires pattern != [] && from <= to <= |d.payload| && ovl <= HALF_SPACE
    ensures Brings(Part(d.th, d.payload, from, to, Pattern(pattern, 0, ovl)), d, from, to, ovl, pattern)
  {
    RelOfSum(d.th, from - ovl);
  }

  lemma PlainPartBrings(d: Dissect, from: nat, to: nat, pattern: seq<byte>)
    requires pattern != [] && from <= to <= |d.payload|
    ensures Brings(Part(d.th, d.payload, from, to, []), d, from, to, 0, pattern)
  {
    RelOfSum(d.th, from);
  }

  // ---------- multisplit and multidisorder ----------

  /** Part j of the packet: from cut to cut. */
  ghost predicate BringsPart(s: Segment, d: Dissect, cuts: seq<nat>, j: nat, ovl: nat, pattern: seq<byte>)
    requires pattern != [] && j <= |cuts|
  {
    Brings(s, d, if j == 0 then 0 else cuts[j - 1], if j == |cuts| then |d.payload| else cuts[j], ovl, pattern)
  }

  /** One real segment per part, from the first part to the last; only the first may have an overlap. */
  ghost predicate Forwards(segs: seq<Segment>, d: Dissect, cuts: seq<nat>, ovl: nat, pattern: seq<byte>)
    requires pattern != []
  {
    && |segs| == |cuts| + 1
    && forall j :: 0 <= j <= |cuts| ==> BringsPart(segs[j], d, cuts, j, if j == 0 then ovl else 0, pattern)
  }

  /** One real segment per part, from the last part to the first; only the last but one may have an overlap. */
  ghost predicate Backwards(segs: seq<Segment>, d: Dissect, cuts: seq<nat>, ovl: nat, pattern: seq<byte>)
    requires pattern != []
  {
    && |segs| == |cuts| + 1
    && forall i :: 0 <= i <= |cuts| ==> BringsPart(segs[i], d, cuts, |cuts| - i, if |cuts| - i == 1 then ovl else 0, pattern)
  }

  /** The numbers strictly ascend, or strictly descend. */
  ghost predicate Ascend(segs: seq<Segment>, d: Dissect) {
    forall i, j :: 0 <= i < j < |segs| ==> Rel(segs[i].start, d.th) < Rel(segs[j].start, d.th)
  }

  ghost predicate Descend(segs: seq<Segment>, d: Dissect) {
    forall i, j :: 0 <= i < j < |segs| ==> Rel(segs[i].start, d.th) > Rel(segs[j].start, d.th)
  }

  /** What multisplit is about, and multidisorder. */
  ghost predicate InOrder(segs: seq<Segment>, d: Dissect, cuts: seq<nat>, ovl: nat, pattern: seq<byte>)
    requires pattern != []
  {
    Forwards(segs, d, cuts, ovl, pattern) && Ascend(segs, d) && (ovl == 0 ==> StartAt(segs, d, cuts))
  }

  ghost predicate InReverse(segs: seq<Segment>, d: Dissect, cuts: seq<nat>, ovl: nat, pattern: seq<byte>)
    requires pattern != []
  {
    Backwards(segs, d, cuts, ovl, pattern) && Descend(segs, d) && (ovl == 0 ==> StartAt(segs, d, cuts))
  }

  /** Multisplit sends the parts in order. */
  lemma MultiSplitIsInOrder(d: Dissect, cuts: seq<nat>, ovl: nat, pattern: seq<byte>)
    requires SplitsOf(cuts, |d.payload|) && pattern != [] && ovl <= HALF_SPACE
    ensures InOrder(MultiSplitPlan(d, cuts, Pattern(pattern, 0, ovl)), d, cuts, ovl, pattern)
  {
    MultiSplitIsForwards(d, cuts, ovl, pattern);
    ForwardsAscend(MultiSplitPlan(d, cuts, Pattern(pattern, 0, ovl)), d, cuts, ovl, pattern);
  }

  /** Multidisorder sends the parts in reverse. */
  lemma MultiDisorderIsInReverse(d: Dissect, cuts: seq<nat>, ovl: nat, pattern: seq<byte>)
    requires SplitsOf(cuts, |d.payload|) && cuts != [] && pattern != [] && ovl < cuts[0]
    ensures InReverse(MultiDisorderPlan(d, cuts, Pattern(pattern, 0, ovl)), d, cuts, ovl, pattern)
  {
    MultiDisorderIsBackwards(d, cuts, ovl, pattern);
    BackwardsDescend(MultiDisorderPlan(d, cuts, Pattern(pattern, 0, ovl)), d, cuts, ovl, pattern);
  }

  lemma MultiSplitIsForwards(d: Dissect, cuts: seq<nat>, ovl: nat, pattern: seq<byte>)
    requires SplitsOf(cuts, |d.payload|) && pattern != [] && ovl <= HALF_SPACE
    ensures Forwards(MultiSplitPlan(d, cuts, Pattern(pattern, 0, ovl)), d, cuts, ovl, pattern)
  {
    var plan := MultiSplitPlan(d, cuts, Pattern(pattern, 0, ovl));
    forall j | 0 <= j <= |cuts|
      ensures BringsPart(plan[j], d, cuts, j, if j == 0 then ovl else 0, pattern)
    {
      BoundsAscend(cuts, |d.payload|, j);
      var lo, hi := Bound(cuts, |d.payload|, j), Bound(cuts, |d.payload|, j + 1);
      if j == 0 {
        PartBrings(d, lo, hi, ovl, pattern);
      } else {
        PlainPartBrings(d, lo, hi, pattern);
      }
    }
  }

  lemma MultiDisorderIsBackwards(d: Dissect, cuts: seq<nat>, ovl: nat, pattern: seq<byte>)
    requires SplitsOf(cuts, |d.payload|) && pattern != [] && ovl <= HALF_SPACE
    ensures Backwards(MultiDisorderPlan(d, cuts, Pattern(pattern, 0, ovl)), d, cuts, ovl, pattern)
  {
    var plan := MultiDisorderPlan(d, cuts, Pattern(pattern, 0, ovl));
    forall i | 0 <= i <= |cuts|
      ensures BringsPart(plan[i], d, cuts, |cuts| - i, if |cuts| - i == 1 then ovl else 0, pattern)
    {
      var j := |cuts| - i;
      BoundsAscend(cuts, |d.payload|, j);
      var lo, hi := Bound(cuts, |d.payload|, j), Bound(cuts, |d.payload|, j + 1);
      assert plan[i] == MultiDisorderPart(d, cuts, Pattern(pattern, 0, ovl), j);
      if j == 1 {
        PartBrings(d, lo, hi, ovl, pattern);
      } else {
        PlainPartBrings(d, lo, hi, pattern);
      }
    }
  }

  /** The real segments start at the packet's start and at the cuts, and nowhere else. */
  ghost predicate StartAt(segs: seq<Segment>, d: Dissect, cuts: seq<nat>) {
    && (forall s <- segs :: Rel(s.start, d.th) == 0 || Rel(s.start, d.th) in cuts)
    && OneStartsAt(segs, d, 0) && forall j :: 0 <= j < |cuts| ==> OneStartsAt(segs, d, cuts[j])
  }

  ghost predicate OneStartsAt(segs: seq<Segment>, d: Dissect, x: nat) {
    exists s <- segs :: Rel(s.start, d.th) == x
  }

  lemma ForwardsAscend(segs: seq<Segment>, d: Dissect, cuts: seq<nat>, ovl: nat, pattern: seq<byte>)
    requires SplitsOf(cuts, |d.payload|) && pattern != [] && Forwards(segs, d, cuts, ovl, pattern)
    ensures Ascend(segs, d)
    ensures ovl == 0 ==> StartAt(segs, d, cuts)
  {
    forall j | 0 <= j < |segs|
      ensures Rel(segs[j].start, d.th) == (if j == 0 then 0 - ovl else cuts[j - 1])
    {
      assert BringsPart(segs[j], d, cuts, j, if j == 0 then ovl else 0, pattern);
    }
    if ovl == 0 {
      assert segs[0] in segs;
      forall j | 0 <= j < |cuts|
        ensures OneStartsAt(segs, d, cuts[j])
      {
        assert segs[j + 1] in segs;
      }
    }
  }

  /** Where segment i of the reversed parts starts. */
  function BackStart(cuts: seq<nat>, ovl: nat, i: nat): int
    requires i <= |cuts|
  {
    if i == |cuts| then 0 else if i == |cuts| - 1 then cuts[0] - ovl else cuts[|cuts| - i - 1]
  }

  lemma BackwardsStart(segs: seq<Segment>, d: Dissect, cuts: seq<nat>, ovl: nat, pattern: seq<byte>, i: nat)
    requires cuts != [] && pattern != [] && Backwards(segs, d, cuts, ovl, pattern) && i < |segs|
    ensures Rel(segs[i].start, d.th) == BackStart(cuts, ovl, i)
  {
    assert BringsPart(segs[i], d, cuts, |cuts| - i, if |cuts| - i == 1 then ovl else 0, pattern);
  }

  /** With an overlap that stays behind the first cut, as multidisorder makes sure, the order is strict as well. */
  lemma BackwardsDescend(segs: seq<Segment>, d: Dissect, cuts: seq<nat>, ovl: nat, pattern: seq<byte>)
    requires SplitsOf(cuts, |d.payload|) && cuts != [] && pattern != [] && ovl < cuts[0]
    requires Backwards(segs, d, cuts, ovl, pattern)
    ensures Descend(segs, d)
    ensures ovl == 0 ==> StartAt(segs, d, cuts)
  {
    forall i, j | 0 <= i < j < |segs|
      ensures Rel(segs[i].start, d.th) > Rel(segs[j].start, d.th)
    {
      BackwardsStart(segs, d, cuts, ovl, pattern, i);
      BackwardsStart(segs, d, cuts, ovl, pattern, j);
    }
    if ovl == 0 {
      BackwardsStartAt(segs, d, cuts, pattern);
    }
  }

  lemma BackwardsStartAt(segs: seq<Segment>, d: Dissect, cuts: seq<nat>, pattern: seq<byte>)
    requires cuts != [] && pattern != [] && Backwards(segs, d, cuts, 0, pattern)
    ensures StartAt(segs, d, cuts)
  {
    forall s | s in segs
      ensures Rel(s.start, d.th) == 0 || Rel(s.start, d.th) in cuts
    {
      var i :| 0 <= i < |segs| && segs[i] == s;
      BackwardsStart(segs, d, cuts, 0, pattern, i);
    }
    BackwardsStart(segs, d, cuts, 0, pattern, |cuts|);
    assert segs[|cuts|] in segs;
    forall j | 0 <= j < |cuts|
      ensures OneStartsAt(segs, d, cuts[j])
    {
      BackwardsStart(segs, d, cuts, 0, pattern, |cuts| - j - 1);
      assert segs[|cuts| - j - 1] in segs;
    }
  }

  // ---------- fakes around the real parts ----------

  /** The real bytes [from, to), with `before` fakes of them in front and `after` fakes of them behind. */
  ghost predicate Guarded(segs: seq<Segment>, d: Dissect, from: nat, to: nat, ovl: nat, pattern: seq<byte>, before: nat, after: nat)
    requires pattern != []
  {
    && |segs| == before + 1 + after
    && Brings(segs[before], d, from, to, ovl, pattern)
    && forall k :: 0 <= k < |segs| && k != before ==> Mimics(segs[k], d, from, to)
  }

  /** How many of `reps` fakes an ordering asks for at a place. */
  function If(c: bool, reps: nat): nat {
    if c then reps else 0
  }

  lemma SurroundedIsGuarded(d: Dissect, reps: nat, pat: seq<byte>, from: nat, to: nat, ovl: nat, pattern: seq<byte>,
                            before: bool, after: bool)
    requires from <= to <= |d.payload| == |pat| && pattern != [] && ovl <= HALF_SPACE
    ensures Guarded(Surrounded(d, reps, pat, from, to, Pattern(pattern, 0, ovl), before, after), d, from, to, ovl, pattern,
                    If(before, reps), If(after, reps))
  {
    PartBrings(d, from, to, ovl, pattern);
    RelOfSum(d.th, from);
    var fake := FakePart(d, pat, from, to);
    assert Mimics(fake, d, from, to);
  }

  /** The first `m` segments are about the bytes [split, n), the others about [0, split). */
  ghost predicate SecondFirst(segs: seq<Segment>, d: Dissect, split: nat, ovl: nat, pattern: seq<byte>, order: nat, reps: nat)
    requires pattern != []
  {
    var m := If(order == 0, reps) + 1 + If(order <= 1, reps);
    && m <= |segs|
    && Guarded(segs[..m], d, split, |d.payload|, ovl, pattern, If(order == 0, reps), If(order <= 1, reps))
    && Guarded(segs[m..], d, 0, split, 0, pattern, reps, If(order <= 2, reps))
  }

  /** The first `m` segments are about the bytes [0, split), the others about [split, n). */
  ghost predicate FirstFirst(segs: seq<Segment>, d: Dissect, split: nat, ovl: nat, pattern: seq<byte>, order: nat, reps: nat)
    requires pattern != []
  {
    var m := If(order == 0, reps) + 1 + If(order <= 1, reps);
    && m <= |segs|
    && Guarded(segs[..m], d, 0, split, ovl, pattern, If(order == 0, reps), If(order <= 1, reps))
    && Guarded(segs[m..], d, split, |d.payload|, 0, pattern, reps, If(order <= 2, reps))
  }

  /** The whole packet with fakes of it around: what the faked strategies do without a split position. */
  ghost predicate Whole(segs: seq<Segment>, d: Dissect, pattern: seq<byte>, order: nat, reps: nat)
    requires pattern != []
  {
    Guarded(segs, d, 0, |d.payload|, 0, pattern, If(order == 0, reps), If(order <= 1, reps))
  }

  /** Fakeddisorder: the real second part goes out before the real first part. */
  lemma FakedDisorderIsSecondFirst(d: Dissect, pat: seq<byte>, split: nat, ovl: nat, pattern: seq<byte>, order: nat, reps: nat)
    requires split <= |d.payload| == |pat| && pattern != [] && ovl <= HALF_SPACE && (split == 0 ==> ovl == 0)
    ensures var plan := FakedDisorderPlan(d, pat, split, Pattern(pattern, 0, ovl), order, reps);
            if split == 0 then Whole(plan, d, pattern, order, reps)
            else SecondFirst(plan, d, split, ovl, pattern, order, reps)
  {
    var a := FakedDisorderSecond(d, pat, split, Pattern(pattern, 0, ovl), order, reps);
    SurroundedIsGuarded(d, reps, pat, split, |d.payload|, ovl, pattern, order == 0, order <= 1);
    if split == 0 {
      assert a + [] == a;
    } else {
      var b := FakedDisorderFirst(d, pat, split, order, reps);
      SurroundedIsGuarded(d, reps, pat, 0, split, 0, pattern, true, order <= 2);
      assert Pattern(pattern, 0, 0) == [];
      assert (a + b)[..|a|] == a && (a + b)[|a|..] == b;
    }
  }

  /** Fakedsplit: the real first part goes out before the real second part. */
  lemma FakedSplitIsFirstFirst(d: Dissect, pat: seq<byte>, split: nat, ovl: nat, pattern: seq<byte>, order: nat, reps: nat)
    requires split <= |d.payload| == |pat| && pattern != [] && ovl <= HALF_SPACE && (split == |d.payload| ==> ovl == 0)
    ensures var plan := FakedSplitPlan(d, pat, split, Pattern(pattern, 0, ovl), order, reps);
            if split == |d.payload| then Whole(plan, d, pattern, order, reps)
            else FirstFirst(plan, d, split, ovl, pattern, order, reps)
  {
    var a := FakedSplitFirst(d, pat, split, Pattern(pattern, 0, ovl), order, reps);
    SurroundedIsGuarded(d, reps, pat, 0, split, ovl, pattern, order == 0, order <= 1);
    if split == |d.payload| {
      assert a + [] == a;
    } else {
      var b := FakedSplitSecond(d, pat, split, order, reps);
      SurroundedIsGuarded(d, reps, pat, split, |d.payload|, 0, pattern, true, order <= 2);
      assert Pattern(pattern, 0, 0) == [];
      assert (a + b)[..|a|] == a && (a + b)[|a|..] == b;
    }
  }

  // ---------- hostfakesplit ----------

  /** The real host name, in one segment or in two. */
  ghost predicate BringsHost(segs: seq<Segment>, d: Dissect, host: nat, endhost: nat, mid: nat, pattern: seq<byte>)
    requires pattern != []
  {
    if mid == 0 then |segs| == 1 && Brings(segs[0], d, host, endhost, 0, pattern)
    else |segs| == 2 && Brings(segs[0], d, host, mid, 0, pattern) && Brings(segs[1], d, mid, endhost, 0, pattern)
  }

  predicate FakeHosts(segs: seq<Segment>, d: Dissect, host: nat, fakehost: seq<byte>, reps: nat) {
    |segs| == reps && forall s <- segs :: Mimics(s, d, host, host + |fakehost|) && s.payload == fakehost
  }

  /** What is before the host name, fakes of it, then either the rest of the packet and the host name, or the host name,
      fakes of it again and the rest. */
  ghost predicate HostFaked(segs: seq<Segment>, d: Dissect, host: nat, endhost: nat, mid: nat, fakehost: seq<byte>,
                            order: nat, reps: nat, pattern: seq<byte>)
    requires pattern != []
  {
    var f, n, parts := 1 + reps, |segs|, if mid == 0 then 1 else 2;
    && 0 < n && Brings(segs[0], d, 0, host, 0, pattern)
    && if order == 1 then
         && n == f + 1 + parts && FakeHosts(segs[1..f], d, host, fakehost, reps)
         && Brings(segs[f], d, endhost, |d.payload|, 0, pattern) && BringsHost(segs[f + 1..], d, host, endhost, mid, pattern)
       else
         && n == f + parts + reps + 1 && FakeHosts(segs[1..f], d, host, fakehost, reps)
         && BringsHost(segs[f..f + parts], d, host, endhost, mid, pattern)
         && FakeHosts(segs[f + parts..n - 1], d, host, fakehost, reps)
         && Brings(segs[n - 1], d, endhost, |d.payload|, 0, pattern)
  }

  lemma HostFakeSplitIsHostFaked(d: Dissect, host: nat, endhost: nat, mid: nat, fakehost: seq<byte>, order: nat, reps: nat,
                                 pattern: seq<byte>)
    requires HostAt(d, host, endhost, mid) && pattern != [] && order <= 1 && |fakehost| == endhost - host
    ensures HostFaked(HostFakeSplitPlan(d, host, endhost, mid, fakehost, order, reps), d, host, endhost, mid, fakehost, order,
                      reps, pattern)
  {
    var plan := HostFakeSplitPlan(d, host, endhost, mid, fakehost, order, reps);
    var fakes := Repeat(reps, Segment(Net32Add(d.th, host), fakehost, true));
    var parts := HostParts(d, host, endhost, mid);
    var f := 1 + reps;
    RelOfSum(d.th, host);
    PlainPartBrings(d, 0, host, pattern);
    PlainPartBrings(d, endhost, |d.payload|, pattern);
    HostPartsBring(d, host, endhost, mid, pattern);
    assert plan[1..f] == fakes;
    if order == 1 {
      assert plan[f + 1..] == parts;
    } else {
      assert plan[f..f + |parts|] == parts;
      assert plan[f + |parts|..|plan| - 1] == fakes;
    }
  }

  lemma HostPartsBring(d: Dissect, host: nat, endhost: nat, mid: nat, pattern: seq<byte>)
    requires HostAt(d, host, endhost, mid) && pattern != []
    ensures BringsHost(HostParts(d, host, endhost, mid), d, host, endhost, mid, pattern)
  {
    if mid == 0 {
      PlainPartBrings(d, host, endhost, pattern);
    } else {
      PlainPartBrings(d, host, mid, pattern);
      PlainPartBrings(d, mid, endhost, pattern);
    }
  }
}
