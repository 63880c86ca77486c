/** TCP segments with 32-bit sequence numbers, and what a receiver can make of a sequence of them. */
module TcpStream {
  import opened Bytes

  const SEQ_SPACE := 0x1_0000_0000
  const HALF_SPACE := 0x8000_0000

  /** A segment put on the wire.  A fake one is made to be discarded on its way (short ttl, bad checksum, ...). */
  datatype Segment = Segment(start: nat, payload: seq<byte>, fake: bool)

  /** net32_add: the increment is a uint32_t, so a negative difference arrives here wrapped. */
  function Net32Add(x: nat, d: int): nat {
    (x + d) % SEQ_SPACE
  }

  /** Where a sequence number lies relative to th, as a signed 32-bit difference. */
  function Rel(x: nat, th: nat): int {
    var d := (x - th) % SEQ_SPACE;
    if d < HALF_SPACE then d else d - SEQ_SPACE
  }

  lemma RelOfSum(th: nat, d: int)
    requires -HALF_SPACE <= d < HALF_SPACE
    ensures Rel(Net32Add(th, d), th) == d
  {
    var q := (th + d) / SEQ_SPACE;
    assert Net32Add(th, d) - th == d - q * SEQ_SPACE;
    if 0 <= d {
      ModOf(d - q * SEQ_SPACE, -q, d);
    } else {
      ModOf(d - q * SEQ_SPACE, -q - 1, d + SEQ_SPACE);
    }
  }

  lemma ModOf(x: int, q: int, r: nat)
    requires x == q * SEQ_SPACE + r && r < SEQ_SPACE
    ensures x % SEQ_SPACE == r
  {
  }

  /** The byte this segment carries for stream offset i, if any. */
  function Carries(s: Segment, th: nat, i: nat): seq<byte> {
    var r := Rel(s.start, th);
    if !s.fake && r <= i < r + |s.payload| then [s.payload[i - r]] else []
  }

  /** All bytes a receiver at th is offered for offset i, in order of arrival. */
  function Copies(log: seq<Segment>, th: nat, i: nat): seq<byte> {
    if log == [] then [] else Copies(log[..|log| - 1], th, i) + Carries(log[|log| - 1], th, i)
  }

  lemma CopiesLast(log: seq<Segment>, s: Segment, th: nat, i: nat)
    ensures Copies(log + [s], th, i) == Copies(log, th, i) + Carries(s, th, i)
  {
    assert (log + [s])[..|log|] == log;
  }

  lemma {:induction false} CopiesConcat(a: seq<Segment>, b: seq<Segment>, th: nat, i: nat)
    ensures Copies(a + b, th, i) == Copies(a, th, i) + Copies(b, th, i)
  {
    if b == [] {
      assert a + b == a;
    } else {
      var n := |b| - 1;
      assert a + b == (a + b[..n]) + [b[n]];
      CopiesLast(a + b[..n], b[n], th, i);
      CopiesConcat(a, b[..n], th, i);
    }
  }

  // ---------- what a list of segments delivers ----------

  /** Bytes of an overlap: filler before offset `at`, `ovl` bytes of it, taken from a pattern. */
  datatype Overlap = Overlap(at: nat, ovl: nat, filler: seq<byte>)

  function Junk(o: Overlap, i: nat): seq<byte>
    requires o.ovl <= |o.filler|
  {
    if o.at - o.ovl <= i < o.at then [o.filler[i - (o.at - o.ovl)]] else []
  }

  /** Each offset in [lo, hi) is offered its byte of the payload exactly once, after the overlap's filler
      where that covers it; nothing else is offered anywhere. */
  ghost predicate Delivers(segs: seq<Segment>, th: nat, payload: seq<byte>, lo: nat, hi: nat, o: Overlap) {
    && lo <= hi <= |payload| && o.ovl <= |o.filler|
    && forall i: nat :: Copies(segs, th, i) == Junk(o, i) + (if lo <= i < hi then [payload[i]] else [])
  }

  function NoOverlap(): Overlap {
    Overlap(0, 0, [])
  }

  /** One real segment for payload[from..to], with `o.ovl` bytes of filler in front. */
  function Part(th: nat, payload: seq<byte>, from: nat, to: nat, filler: seq<byte>): Segment
    requires from <= to <= |payload|
  {
    Segment(Net32Add(th, from - |filler|), filler + payload[from..to], false)
  }

  lemma DeliversPart(th: nat, payload: seq<byte>, from: nat, to: nat, filler: seq<byte>)
    requires from <= to <= |payload| < HALF_SPACE && |filler| <= HALF_SPACE
    ensures Delivers([Part(th, payload, from, to, filler)], th, payload, from, to, Overlap(from, |filler|, filler))
  {
    var s := Part(th, payload, from, to, filler);
    RelOfSum(th, from - |filler|);
    forall i: nat
      ensures Copies([s], th, i) ==
              Junk(Overlap(from, |filler|, filler), i) + (if from <= i < to then [payload[i]] else [])
    {
      assert [] + [s] == [s];
      CopiesLast([], s, th, i);
    }
  }

  lemma {:induction false} FakesDeliverNothing(segs: seq<Segment>, th: nat, payload: seq<byte>, at: nat)
    requires forall k :: 0 <= k < |segs| ==> segs[k].fake
    requires at <= |payload|
    ensures Delivers(segs, th, payload, at, at, NoOverlap())
  {
    if segs != [] {
      FakesDeliverNothing(segs[..|segs| - 1], th, payload, at);
    }
  }

  /** Segments in order: first [lo, mid), then [mid, hi). */
  lemma DeliversInOrder(a: seq<Segment>, b: seq<Segment>, th: nat, payload: seq<byte>, lo: nat, mid: nat, hi: nat, o: Overlap)
    requires Delivers(a, th, payload, lo, mid, o) && Delivers(b, th, payload, mid, hi, NoOverlap())
    ensures Delivers(a + b, th, payload, lo, hi, o)
  {
    forall i: nat
      ensures Copies(a + b, th, i) == Junk(o, i) + (if lo <= i < hi then [payload[i]] else [])
    {
      CopiesConcat(a, b, th, i);
    }
  }

  /** Segments out of order: the later part first, even when its overlap reaches into the earlier one. */
  lemma DeliversOutOfOrder(a: seq<Segment>, b: seq<Segment>, th: nat, payload: seq<byte>, lo: nat, mid: nat, hi: nat, o: Overlap)
    requires Delivers(a, th, payload, mid, hi, o) && Delivers(b, th, payload, lo, mid, NoOverlap())
    ensures Delivers(a + b, th, payload, lo, hi, o)
  {
    forall i: nat
      ensures Copies(a + b, th, i) == Junk(o, i) + (if lo <= i < hi then [payload[i]] else [])
    {
      CopiesConcat(a, b, th, i);
    }
  }

  /** The overlap comes with the second lot and touches nothing the first one delivered. */
  lemma DeliversOverlapLast(a: seq<Segment>, b: seq<Segment>, th: nat, payload: seq<byte>, lo: nat, mid: nat, hi: nat, o: Overlap)
    requires Delivers(a, th, payload, mid, hi, NoOverlap()) && Delivers(b, th, payload, lo, mid, o)
    requires o.at <= mid
    ensures Delivers(a + b, th, payload, lo, hi, o)
  {
    forall i: nat
      ensures Copies(a + b, th, i) == Junk(o, i) + (if lo <= i < hi then [payload[i]] else [])
    {
      CopiesConcat(a, b, th, i);
    }
  }

  // ---------- what the receiver rebuilds ----------

  /** A receiver for which the last copy of a byte wins ends up with exactly `payload`, given that
      `before` was on the wire already. */
  ghost predicate Rebuilds(before: seq<Segment>, after: seq<Segment>, th: nat, payload: seq<byte>) {
    && before <= after
    && forall i: nat :: LastIs(Copies(after[|before|..], th, i), payload, i)
  }

  /** The copies offered for offset i end with the byte the payload has there, and there are none past its end. */
  ghost predicate LastIs(copies: seq<byte>, payload: seq<byte>, i: nat) {
    if i < |payload| then copies != [] && copies[|copies| - 1] == payload[i] else copies == []
  }

  /** No real segment added reaches beyond the payload, nor more than lo bytes before it. */
  ghost predicate StaysWithin(before: seq<Segment>, after: seq<Segment>, th: nat, lo: nat, n: nat) {
    && before <= after
    && forall k :: |before| <= k < |after| ==> Inside(after[k], th, lo, n)
  }

  predicate Inside(s: Segment, th: nat, lo: nat, n: nat) {
    s.fake || (0 <= Rel(s.start, th) + lo && Rel(s.start, th) + |s.payload| <= n)
  }

  lemma {:induction false} WithinCopies(segs: seq<Segment>, th: nat, lo: nat, n: nat, i: nat)
    requires forall k :: 0 <= k < |segs| ==> Inside(segs[k], th, lo, n)
    requires n <= i
    ensures Copies(segs, th, i) == []
  {
    if segs != [] {
      WithinCopies(segs[..|segs| - 1], th, lo, n, i);
    }
  }

  lemma DeliveredRebuilds(before: seq<Segment>, plan: seq<Segment>, th: nat, payload: seq<byte>, o: Overlap)
    requires Delivers(plan, th, payload, 0, |payload|, o) && o.at <= |payload|
    ensures Rebuilds(before, before + plan, th, payload)
  {
    assert (before + plan)[|before|..] == plan;
  }

  /** Whatever was sent before it, the original packet sent last makes the stream right. */
  lemma OriginalRebuilds(before: seq<Segment>, mid: seq<Segment>, th: nat, lo: nat, payload: seq<byte>)
    requires StaysWithin(before, mid, th, lo, |payload|) && |payload| < HALF_SPACE && th < SEQ_SPACE
    ensures Rebuilds(before, mid + [Segment(th, payload, false)], th, payload)
    ensures StaysWithin(before, mid + [Segment(th, payload, false)], th, lo, |payload|)
  {
    var orig := Segment(th, payload, false);
    var segs := mid[|before|..];
    assert (mid + [orig])[|before|..] == segs + [orig];
    RelOfSum(th, 0);
    forall i: nat
      ensures LastIs(Copies(segs + [orig], th, i), payload, i)
    {
      CopiesLast(segs, orig, th, i);
      if |payload| <= i {
        WithinCopies(segs, th, lo, |payload|, i);
      }
    }
  }
}
