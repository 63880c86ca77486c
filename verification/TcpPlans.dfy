/** What each segmentation strategy of nfq/desync.c puts on the wire, and that a receiver rebuilds the
    original payload from it.
 */
module TcpPlans {
  import opened Bytes
  import opened FillPattern
  import opened TcpStream

  /** Sequence number and payload of the packet being replaced. */
  datatype Packet = Packet(th: nat, payload: seq<byte>)

  type Dissect = d: Packet | d.th < SEQ_SPACE && |d.payload| < HALF_SPACE witness Packet(0, [])

  /** Split positions: strictly ascending and strictly inside the payload. */
  ghost predicate SplitsOf(cuts: seq<nat>, n: nat) {
    && (forall j :: 0 <= j < |cuts| ==> 0 < cuts[j] < n)
    && (forall i, j :: 0 <= i < j < |cuts| ==> cuts[i] < cuts[j])
  }

  /** Where part j starts. */
  function Bound(cuts: seq<nat>, n: nat, j: nat): nat {
    if j == 0 then 0 else if j <= |cuts| then cuts[j - 1] else n
  }

  lemma BoundsAscend(cuts: seq<nat>, n: nat, j: nat)
    requires SplitsOf(cuts, n) && j <= |cuts|
    ensures Bound(cuts, n, j) <= Bound(cuts, n, j + 1) <= n
    ensures 0 < n ==> Bound(cuts, n, j) < Bound(cuts, n, j + 1)
  {
  }

  function Repeat(n: nat, s: Segment): (r: seq<Segment>)
    ensures |r| == n && forall k :: 0 <= k < n ==> r[k] == s
  {
    seq(n, _ => s)
  }

  // ---------- multisplit ----------

  ghost function MultiSplitPart(d: Dissect, cuts: seq<nat>, filler: seq<byte>, j: nat): Segment
    requires SplitsOf(cuts, |d.payload|) && j <= |cuts|
  {
    BoundsAscend(cuts, |d.payload|, j);
    var n := |d.payload|;
    Part(d.th, d.payload, Bound(cuts, n, j), Bound(cuts, n, j + 1), if j == 0 then filler else [])
  }

  /** The parts in order; filler only in front of the first. */
  ghost function MultiSplitPlan(d: Dissect, cuts: seq<nat>, filler: seq<byte>): seq<Segment>
    requires SplitsOf(cuts, |d.payload|)
  {
    seq(|cuts| + 1, j requires 0 <= j <= |cuts| => MultiSplitPart(d, cuts, filler, j))
  }

  lemma {:induction false} MultiSplitPrefix(d: Dissect, cuts: seq<nat>, filler: seq<byte>, j: nat)
    requires SplitsOf(cuts, |d.payload|) && 1 <= j <= |cuts| + 1 && |filler| <= HALF_SPACE
    ensures Delivers(MultiSplitPlan(d, cuts, filler)[..j], d.th, d.payload, 0, Bound(cuts, |d.payload|, j),
                     Overlap(0, |filler|, filler))
  {
    var plan, n := MultiSplitPlan(d, cuts, filler), |d.payload|;
    assert plan[..j] == plan[..j - 1] + [plan[j - 1]];
    BoundsAscend(cuts, n, j - 1);
    var f := if j == 1 then filler else [];
    DeliversPart(d.th, d.payload, Bound(cuts, n, j - 1), Bound(cuts, n, j), f);
    if j == 1 {
      assert plan[..1] == [plan[0]];
    } else {
      MultiSplitPrefix(d, cuts, filler, j - 1);
      NoFiller([plan[j - 1]], d.th, d.payload, Bound(cuts, n, j - 1), Bound(cuts, n, j), Bound(cuts, n, j - 1));
      DeliversInOrder(plan[..j - 1], [plan[j - 1]], d.th, d.payload, 0, Bound(cuts, n, j - 1), Bound(cuts, n, j),
                      Overlap(0, |filler|, filler));
    }
  }

  lemma NoFiller(segs: seq<Segment>, th: nat, payload: seq<byte>, lo: nat, hi: nat, at: nat)
    requires Delivers(segs, th, payload, lo, hi, Overlap(at, 0, []))
    ensures Delivers(segs, th, payload, lo, hi, NoOverlap())
  {
    forall i: nat
      ensures Junk(Overlap(at, 0, []), i) == Junk(NoOverlap(), i)
    {
    }
  }

  /** multisplit offers every byte of the payload exactly once; the filler lies before the stream. */
  lemma MultiSplitRebuilds(d: Dissect, cuts: seq<nat>, filler: seq<byte>, before: seq<Segment>)
    requires SplitsOf(cuts, |d.payload|) && |filler| <= HALF_SPACE
    ensures var plan := MultiSplitPlan(d, cuts, filler);
            && (forall i: nat :: Copies(plan, d.th, i) == if i < |d.payload| then [d.payload[i]] else [])
            && Rebuilds(before, before + plan, d.th, d.payload)
  {
    var plan := MultiSplitPlan(d, cuts, filler);
    MultiSplitPrefix(d, cuts, filler, |cuts| + 1);
    assert plan[..|cuts| + 1] == plan;
    DeliveredRebuilds(before, plan, d.th, d.payload, Overlap(0, |filler|, filler));
  }

  // ---------- multidisorder ----------

  ghost function MultiDisorderPart(d: Dissect, cuts: seq<nat>, filler: seq<byte>, j: nat): Segment
    requires SplitsOf(cuts, |d.payload|) && j <= |cuts|
  {
    BoundsAscend(cuts, |d.payload|, j);
    var n := |d.payload|;
    Part(d.th, d.payload, Bound(cuts, n, j), Bound(cuts, n, j + 1), if j == 1 then filler else [])
  }

  /** The parts from last to first; filler only in front of the second, so that it lies under the first. */
  ghost function MultiDisorderPlan(d: Dissect, cuts: seq<nat>, filler: seq<byte>): seq<Segment>
    requires SplitsOf(cuts, |d.payload|)
  {
    seq(|cuts| + 1, j requires 0 <= j <= |cuts| => MultiDisorderPart(d, cuts, filler, |cuts| - j))
  }

  lemma {:induction false} MultiDisorderPrefix(d: Dissect, cuts: seq<nat>, filler: seq<byte>, j: nat)
    requires SplitsOf(cuts, |d.payload|) && cuts != [] && j <= |cuts| + 1 && |filler| <= HALF_SPACE
    ensures Bound(cuts, |d.payload|, |cuts| + 1 - j) <= |d.payload|
    ensures Delivers(MultiDisorderPlan(d, cuts, filler)[..j], d.th, d.payload,
                     Bound(cuts, |d.payload|, |cuts| + 1 - j), |d.payload|,
                     if j < |cuts| then NoOverlap() else Overlap(cuts[0], |filler|, filler))
  {
    var plan, n := MultiDisorderPlan(d, cuts, filler), |d.payload|;
    if j == 0 {
      assert plan[..0] == [];
      FakesDeliverNothing([], d.th, d.payload, n);
    } else {
      var p := |cuts| + 1 - j;
      var lo, mid := Bound(cuts, n, p), Bound(cuts, n, p + 1);
      assert plan[..j] == plan[..j - 1] + [plan[j - 1]];
      assert plan[j - 1] == MultiDisorderPart(d, cuts, filler, p);
      BoundsAscend(cuts, n, p);
      MultiDisorderPrefix(d, cuts, filler, j - 1);
      if p == 1 {
        JoinWithFiller(d, plan[..j - 1], lo, mid, filler);
      } else {
        JoinPlain(d, plan[..j - 1], lo, mid, if j - 1 < |cuts| then NoOverlap() else Overlap(cuts[0], |filler|, filler));
      }
    }
  }

  lemma JoinPlain(d: Dissect, later: seq<Segment>, lo: nat, mid: nat, o: Overlap)
    requires lo <= mid <= |d.payload| && Delivers(later, d.th, d.payload, mid, |d.payload|, o)
    ensures Delivers(later + [Part(d.th, d.payload, lo, mid, [])], d.th, d.payload, lo, |d.payload|, o)
  {
    DeliversPart(d.th, d.payload, lo, mid, []);
    NoFiller([Part(d.th, d.payload, lo, mid, [])], d.th, d.payload, lo, mid, lo);
    DeliversOutOfOrder(later, [Part(d.th, d.payload, lo, mid, [])], d.th, d.payload, lo, mid, |d.payload|, o);
  }

  lemma JoinWithFiller(d: Dissect, later: seq<Segment>, lo: nat, mid: nat, filler: seq<byte>)
    requires lo <= mid <= |d.payload| && |filler| <= HALF_SPACE
    requires Delivers(later, d.th, d.payload, mid, |d.payload|, NoOverlap())
    ensures Delivers(later + [Part(d.th, d.payload, lo, mid, filler)], d.th, d.payload, lo, |d.payload|,
                     Overlap(lo, |filler|, filler))
  {
    DeliversPart(d.th, d.payload, lo, mid, filler);
    DeliversOverlapLast(later, [Part(d.th, d.payload, lo, mid, filler)], d.th, d.payload, lo, mid, |d.payload|,
                        Overlap(lo, |filler|, filler));
  }

  /** multidisorder offers every byte exactly once, except that the filler comes before the real bytes it covers. */
  lemma MultiDisorderRebuilds(d: Dissect, cuts: seq<nat>, filler: seq<byte>, before: seq<Segment>)
    requires SplitsOf(cuts, |d.payload|) && cuts != [] && |filler| < cuts[0]
    ensures var plan := MultiDisorderPlan(d, cuts, filler);
            && (forall i: nat :: Copies(plan, d.th, i) ==
                  Junk(Overlap(cuts[0], |filler|, filler), i) + (if i < |d.payload| then [d.payload[i]] else []))
            && Rebuilds(before, before + plan, d.th, d.payload)
  {
    var plan := MultiDisorderPlan(d, cuts, filler);
    MultiDisorderPrefix(d, cuts, filler, |cuts| + 1);
    assert plan[..|cuts| + 1] == plan;
    DeliveredRebuilds(before, plan, d.th, d.payload, Overlap(cuts[0], |filler|, filler));
  }

  // ---------- faked parts ----------

  function FakePart(d: Dissect, pat: seq<byte>, from: nat, to: nat): Segment
    requires from <= to <= |pat|
  {
    Segment(Net32Add(d.th, from), pat[from..to], true)
  }

  /** A fake cut out of the pattern buffer of the packet. */
  predicate CutFrom(s: Segment, d: Dissect, pat: seq<byte>) {
    var a := Rel(s.start, d.th);
    0 <= a && a + |s.payload| <= |pat| && s.payload == pat[a..a + |s.payload|]
  }

  lemma FakePartIsCut(d: Dissect, pat: seq<byte>, from: nat, to: nat)
    requires from <= to <= |pat| == |d.payload|
    ensures CutFrom(FakePart(d, pat, from, to), d, pat)
  {
    RelOfSum(d.th, from);
  }

  /** Every fake put on the wire in between was cut out of the pattern buffer. */
  ghost predicate FakesOf(log0: seq<Segment>, log1: seq<Segment>, d: Dissect, pat: seq<byte>) {
    log0 <= log1 && forall i :: |log0| <= i < |log1| && log1[i].fake ==> CutFrom(log1[i], d, pat)
  }

  lemma FakesOfTransitive(log0: seq<Segment>, log1: seq<Segment>, log2: seq<Segment>, d: Dissect, pat: seq<byte>)
    requires FakesOf(log0, log1, d, pat) && FakesOf(log1, log2, d, pat)
    ensures FakesOf(log0, log2, d, pat)
  {
    assert log1 == log2[..|log1|];
  }

  lemma FakesBefore(fakes: seq<Segment>, segs: seq<Segment>, th: nat, payload: seq<byte>, lo: nat, hi: nat, o: Overlap)
    requires forall k :: 0 <= k < |fakes| ==> fakes[k].fake
    requires Delivers(segs, th, payload, lo, hi, o) && o.at <= hi
    ensures Delivers(fakes + segs, th, payload, lo, hi, o)
  {
    FakesDeliverNothing(fakes, th, payload, hi);
    DeliversOverlapLast(fakes, segs, th, payload, lo, hi, hi, o);
  }

  lemma FakesAfter(segs: seq<Segment>, fakes: seq<Segment>, th: nat, payload: seq<byte>, lo: nat, hi: nat, o: Overlap)
    requires forall k :: 0 <= k < |fakes| ==> fakes[k].fake
    requires Delivers(segs, th, payload, lo, hi, o)
    ensures Delivers(segs + fakes, th, payload, lo, hi, o)
  {
    FakesDeliverNothing(fakes, th, payload, hi);
    DeliversInOrder(segs, fakes, th, payload, lo, hi, hi, o);
  }

  function When(c: bool, segs: seq<Segment>): seq<Segment> {
    if c then segs else []
  }

  /** A real part with fakes of the same bytes before and after it. */
  ghost function Surrounded(d: Dissect, reps: nat, pat: seq<byte>, from: nat, to: nat, filler: seq<byte>, before: bool, after: bool)
    : seq<Segment>
    requires from <= to <= |d.payload| == |pat|
  {
    var fakes := Repeat(reps, FakePart(d, pat, from, to));
    When(before, fakes) + [Part(d.th, d.payload, from, to, filler)] + When(after, fakes)
  }

  lemma SurroundedDelivers(d: Dissect, reps: nat, pat: seq<byte>, from: nat, to: nat, filler: seq<byte>, before: bool, after: bool)
    requires from <= to <= |d.payload| == |pat| && |filler| <= HALF_SPACE
    ensures Delivers(Surrounded(d, reps, pat, from, to, filler, before, after), d.th, d.payload, from, to,
                     Overlap(from, |filler|, filler))
  {
    var fakes := Repeat(reps, FakePart(d, pat, from, to));
    var o, part := Overlap(from, |filler|, filler), [Part(d.th, d.payload, from, to, filler)];
    DeliversPart(d.th, d.payload, from, to, filler);
    FakesBefore(When(before, fakes), part, d.th, d.payload, from, to, o);
    FakesAfter(When(before, fakes) + part, When(after, fakes), d.th, d.payload, from, to, o);
  }

  // ---------- fakeddisorder ----------

  /** split == 0 means that there is no split position in this packet. */
  ghost function FakedDisorderSecond(d: Dissect, pat: seq<byte>, split: nat, filler: seq<byte>, order: nat, reps: nat): seq<Segment>
    requires split <= |d.payload| == |pat|
  {
    Surrounded(d, reps, pat, split, |d.payload|, filler, order == 0, order <= 1)
  }

  ghost function FakedDisorderFirst(d: Dissect, pat: seq<byte>, split: nat, order: nat, reps: nat): seq<Segment>
    requires split <= |d.payload| == |pat|
  {
    Surrounded(d, reps, pat, 0, split, [], true, order <= 2)
  }

  ghost function FakedDisorderPlan(d: Dissect, pat: seq<byte>, split: nat, filler: seq<byte>, order: nat, reps: nat): seq<Segment>
    requires split <= |d.payload| == |pat|
  {
    FakedDisorderSecond(d, pat, split, filler, order, reps)
      + if split == 0 then [] else FakedDisorderFirst(d, pat, split, order, reps)
  }

  /** fakeddisorder: both real parts get through, the second first; the filler is overwritten by the first part. */
  lemma FakedDisorderRebuilds(d: Dissect, pat: seq<byte>, split: nat, filler: seq<byte>, order: nat, reps: nat,
                              before: seq<Segment>)
    requires split <= |d.payload| == |pat| && (filler != [] ==> |filler| < split)
    ensures var plan := FakedDisorderPlan(d, pat, split, filler, order, reps);
            && (forall i: nat :: Copies(plan, d.th, i) ==
                  Junk(Overlap(split, |filler|, filler), i) + (if i < |d.payload| then [d.payload[i]] else []))
            && Rebuilds(before, before + plan, d.th, d.payload)
  {
    var plan, n := FakedDisorderPlan(d, pat, split, filler, order, reps), |d.payload|;
    var second := FakedDisorderSecond(d, pat, split, filler, order, reps);
    var o := Overlap(split, |filler|, filler);
    SurroundedDelivers(d, reps, pat, split, n, filler, order == 0, order <= 1);
    if split == 0 {
      assert plan == second;
    } else {
      SurroundedDelivers(d, reps, pat, 0, split, [], true, order <= 2);
      NoFiller(FakedDisorderFirst(d, pat, split, order, reps), d.th, d.payload, 0, split, 0);
      DeliversOutOfOrder(second, FakedDisorderFirst(d, pat, split, order, reps), d.th, d.payload, 0, split, n, o);
    }
    DeliveredRebuilds(before, plan, d.th, d.payload, o);
  }

  // ---------- fakedsplit ----------

  /** split == |payload| means that there is no split position in this packet. */
  ghost function FakedSplitFirst(d: Dissect, pat: seq<byte>, split: nat, filler: seq<byte>, order: nat, reps: nat): seq<Segment>
    requires split <= |d.payload| == |pat|
  {
    Surrounded(d, reps, pat, 0, split, filler, order == 0, order <= 1)
  }

  ghost function FakedSplitSecond(d: Dissect, pat: seq<byte>, split: nat, order: nat, reps: nat): seq<Segment>
    requires split <= |d.payload| == |pat|
  {
    Surrounded(d, reps, pat, split, |d.payload|, [], true, order <= 2)
  }

  ghost function FakedSplitPlan(d: Dissect, pat: seq<byte>, split: nat, filler: seq<byte>, order: nat, reps: nat): seq<Segment>
    requires split <= |d.payload| == |pat|
  {
    FakedSplitFirst(d, pat, split, filler, order, reps)
      + if split < |d.payload| then FakedSplitSecond(d, pat, split, order, reps) else []
  }

  /** fakedsplit offers every byte of the payload exactly once; the filler lies before the stream. */
  lemma FakedSplitRebuilds(d: Dissect, pat: seq<byte>, split: nat, filler: seq<byte>, order: nat, reps: nat,
                           before: seq<Segment>)
    requires split <= |d.payload| == |pat| && |filler| <= HALF_SPACE
    ensures var plan := FakedSplitPlan(d, pat, split, filler, order, reps);
            && (forall i: nat :: Copies(plan, d.th, i) == if i < |d.payload| then [d.payload[i]] else [])
            && Rebuilds(before, before + plan, d.th, d.payload)
  {
    var plan, n := FakedSplitPlan(d, pat, split, filler, order, reps), |d.payload|;
    var first := FakedSplitFirst(d, pat, split, filler, order, reps);
    var o := Overlap(0, |filler|, filler);
    SurroundedDelivers(d, reps, pat, 0, split, filler, order == 0, order <= 1);
    if split == n {
      assert plan == first;
    } else {
      SurroundedDelivers(d, reps, pat, split, n, [], true, order <= 2);
      NoFiller(FakedSplitSecond(d, pat, split, order, reps), d.th, d.payload, split, n, split);
      DeliversInOrder(first, FakedSplitSecond(d, pat, split, order, reps), d.th, d.payload, 0, split, n, o);
    }
    DeliveredRebuilds(before, plan, d.th, d.payload, o);
  }

  // ---------- hostfakesplit ----------

  /** Host name at [host, endhost), optionally cut in the middle (mid == 0: not cut). */
  ghost predicate HostAt(d: Dissect, host: nat, endhost: nat, mid: nat) {
    0 < host < endhost < |d.payload| && (mid != 0 ==> host < mid < endhost)
  }

  /** The real host name in one or two parts. */
  ghost function HostParts(d: Dissect, host: nat, endhost: nat, mid: nat): seq<Segment>
    requires HostAt(d, host, endhost, mid)
  {
    if mid == 0 then [Part(d.th, d.payload, host, endhost, [])]
    else [Part(d.th, d.payload, host, mid, [])] + [Part(d.th, d.payload, mid, endhost, [])]
  }

  ghost function HostFakeSplitPlan(d: Dissect, host: nat, endhost: nat, mid: nat, fakehost: seq<byte>, order: nat, reps: nat)
    : seq<Segment>
    requires HostAt(d, host, endhost, mid)
  {
    var fakes := Repeat(reps, Segment(Net32Add(d.th, host), fakehost, true));
    var after := [Part(d.th, d.payload, endhost, |d.payload|, [])];
    [Part(d.th, d.payload, 0, host, [])] + fakes + When(order == 1, after)
      + HostParts(d, host, endhost, mid) + When(order == 0, fakes + after)
  }

  lemma PartDelivers(d: Dissect, from: nat, to: nat)
    requires from <= to <= |d.payload|
    ensures Delivers([Part(d.th, d.payload, from, to, [])], d.th, d.payload, from, to, NoOverlap())
  {
    DeliversPart(d.th, d.payload, from, to, []);
    NoFiller([Part(d.th, d.payload, from, to, [])], d.th, d.payload, from, to, from);
  }

  lemma HostPartsDeliver(d: Dissect, host: nat, endhost: nat, mid: nat)
    requires HostAt(d, host, endhost, mid)
    ensures Delivers(HostParts(d, host, endhost, mid), d.th, d.payload, host, endhost, NoOverlap())
  {
    if mid == 0 {
      PartDelivers(d, host, endhost);
    } else {
      PartDelivers(d, host, mid);
      PartDelivers(d, mid, endhost);
      DeliversInOrder([Part(d.th, d.payload, host, mid, [])], [Part(d.th, d.payload, mid, endhost, [])],
                      d.th, d.payload, host, mid, endhost, NoOverlap());
    }
  }

  lemma AfterThenHost(d: Dissect, head: seq<Segment>, after: seq<Segment>, parts: seq<Segment>, host: nat, endhost: nat)
    requires Delivers(head, d.th, d.payload, 0, host, NoOverlap())
    requires Delivers(parts, d.th, d.payload, host, endhost, NoOverlap())
    requires Delivers(after, d.th, d.payload, endhost, |d.payload|, NoOverlap())
    ensures Delivers(head + after + parts + [], d.th, d.payload, 0, |d.payload|, NoOverlap())
  {
    DeliversOutOfOrder(after, parts, d.th, d.payload, host, endhost, |d.payload|, NoOverlap());
    DeliversInOrder(head, after + parts, d.th, d.payload, 0, host, |d.payload|, NoOverlap());
    assert head + after + parts + [] == head + (after + parts);
  }

  lemma HostThenAfter(d: Dissect, head: seq<Segment>, parts: seq<Segment>, fakes: seq<Segment>, after: seq<Segment>,
                      host: nat, endhost: nat)
    requires Delivers(head, d.th, d.payload, 0, host, NoOverlap())
    requires Delivers(parts, d.th, d.payload, host, endhost, NoOverlap())
    requires Delivers(after, d.th, d.payload, endhost, |d.payload|, NoOverlap())
    requires forall k :: 0 <= k < |fakes| ==> fakes[k].fake
    ensures Delivers(head + [] + parts + (fakes + after), d.th, d.payload, 0, |d.payload|, NoOverlap())
  {
    FakesBefore(fakes, after, d.th, d.payload, endhost, |d.payload|, NoOverlap());
    DeliversInOrder(head, parts, d.th, d.payload, 0, host, endhost, NoOverlap());
    DeliversInOrder(head + parts, fakes + after, d.th, d.payload, 0, endhost, |d.payload|, NoOverlap());
    assert head + [] + parts + (fakes + after) == (head + parts) + (fakes + after);
  }

  /** hostfakesplit offers every byte of the payload exactly once, in either order. */
  lemma HostFakeSplitRebuilds(d: Dissect, host: nat, endhost: nat, mid: nat, fakehost: seq<byte>, order: nat, reps: nat,
                              before: seq<Segment>)
    requires HostAt(d, host, endhost, mid) && order <= 1
    ensures var plan := HostFakeSplitPlan(d, host, endhost, mid, fakehost, order, reps);
            && (forall i: nat :: Copies(plan, d.th, i) == if i < |d.payload| then [d.payload[i]] else [])
            && Rebuilds(before, before + plan, d.th, d.payload)
  {
    var n := |d.payload|;
    var fakes := Repeat(reps, Segment(Net32Add(d.th, host), fakehost, true));
    var after := [Part(d.th, d.payload, endhost, n, [])];
    var head := [Part(d.th, d.payload, 0, host, [])] + fakes;
    var parts := HostParts(d, host, endhost, mid);
    var plan := HostFakeSplitPlan(d, host, endhost, mid, fakehost, order, reps);
    PartDelivers(d, 0, host);
    FakesAfter([Part(d.th, d.payload, 0, host, [])], fakes, d.th, d.payload, 0, host, NoOverlap());
    PartDelivers(d, endhost, n);
    HostPartsDeliver(d, host, endhost, mid);
    if order == 1 {
      AfterThenHost(d, head, after, parts, host, endhost);
    } else {
      HostThenAfter(d, head, parts, fakes, after, host, endhost);
    }
    assert Delivers(plan, d.th, d.payload, 0, n, NoOverlap());
    DeliveredRebuilds(before, plan, d.th, d.payload, NoOverlap());
  }

  // ---------- the fake bytes ----------

  /** A fake that carries, for every stream offset it covers, the byte of the endlessly repeated pattern there; the packet is
      at `offset` in the stream. */
  ghost predicate FollowsPattern(s: Segment, d: Dissect, pattern: seq<byte>, offset: nat)
    requires pattern != []
  {
    var a := Rel(s.start, d.th);
    && 0 <= a && a + |s.payload| <= |d.payload|
    && forall k :: 0 <= k < |s.payload| ==> s.payload[k] == PatternAt(pattern, offset + a + k)
  }

  /** Fakes cut out of the pattern that fill_pattern made for the packet follow the stream: packets of one stream continue
      one pattern. */
  lemma CutFollowsPattern(s: Segment, d: Dissect, pattern: seq<byte>, offset: nat)
    requires pattern != [] && CutFrom(s, d, Pattern(pattern, offset, |d.payload|))
    ensures FollowsPattern(s, d, pattern, offset)
  {
  }

  /** The same as a remainder. */
  lemma FakeBytesFollowStream(s: Segment, d: Dissect, pattern: seq<byte>, offset: nat, k: nat)
    requires pattern != [] && FollowsPattern(s, d, pattern, offset) && k < |s.payload|
    ensures s.payload[k] == pattern[(offset + Rel(s.start, d.th) + k) % |pattern|]
  {
    PatternAtIsModulo(pattern, offset + Rel(s.start, d.th) + k);
  }
}
